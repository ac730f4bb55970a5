/** The two collaborators the secure session talks to, as oracles:
    javax.net.ssl.SSLEngine, which may answer any status, handshake status
    and byte counts that fit the buffers it is given, and
    java.nio.channels.SocketChannel, a non-blocking byte source and sink.
    The cryptography and the record format are not modelled; each oracle
    keeps a log of the bytes that went through it, so that what the
    session does with every answer can be stated. */
module Engines {
  import opened ByteBuffers

  /** SSLEngineResult.Status */
  datatype Status = StatusOk | BufferUnderflow | BufferOverflow | Closed

  /** SSLEngineResult.HandshakeStatus (NEED_UNWRAP_AGAIN is the value the
      session's switch statements have no case for). */
  datatype HandshakeStatus =
    | NotHandshaking | Finished | NeedTask | NeedWrap | NeedUnwrap | NeedUnwrapAgain

  /** SSLEngineResult */
  datatype EngineResult = EngineResult(
    status: Status,
    handshakeStatus: HandshakeStatus,
    bytesConsumed: nat,
    bytesProduced: nat)

  function Zeros(n: nat): (z: seq<byte>)
    ensures |z| == n
  {
    seq(n, _ => 0)
  }

  class Engine {
    var applicationBufferSize: nat  // SSLSession.getApplicationBufferSize()
    var packetBufferSize: nat       // SSLSession.getPacketBufferSize()
    var handshakeBegun: bool
    var outboundClosed: bool        // closeOutbound() has been called
    var inboundDone: bool
    var outboundDone: bool
    var pendingTasks: nat           // delegated tasks getDelegatedTask() still hands out
    var plainIn: seq<byte>    // plaintext taken in by wrap
    var cipherOut: seq<byte>           // ciphertext produced by wrap
    var cipherIn: seq<byte>   // ciphertext taken in by unwrap
    var plainOut: seq<byte>           // plaintext produced by unwrap
    ghost var wrapResults: seq<EngineResult>    // every answer wrap gave, in order
    ghost var unwrapResults: seq<EngineResult>  // every answer unwrap gave, in order
    ghost var reported: seq<HandshakeStatus>    // every handshake status wrap, unwrap or getHandshakeStatus reported, in order
    ghost var closedAt: nat                     // once outboundClosed: how many wraps came before the first closeOutbound()

    /** A server-mode engine from an SSLContext; its session sizes are whatever the context chose. */
    constructor (appSize: nat, packetSize: nat)
      ensures applicationBufferSize == appSize && packetBufferSize == packetSize
      ensures !handshakeBegun && !outboundClosed && !inboundDone && !outboundDone && pendingTasks == 0
      ensures plainIn == [] && cipherOut == [] && cipherIn == [] && plainOut == []
      ensures wrapResults == [] && unwrapResults == [] && reported == [] && closedAt == 0
    {
      applicationBufferSize, packetBufferSize := appSize, packetSize;
      handshakeBegun, outboundClosed, inboundDone, outboundDone := false, false, false, false;
      pendingTasks := 0;
      plainIn, cipherOut, cipherIn, plainOut := [], [], [], [];
      wrapResults, unwrapResults, reported := [], [], [];
      closedAt := 0;
    }

    method BeginHandshake()
      modifies this`handshakeBegun
      ensures handshakeBegun
    {
      handshakeBegun := true;
    }

    /** getHandshakeStatus(): any status; delegated tasks run elsewhere may change it between calls. */
    method GetHandshakeStatus() returns (hs: HandshakeStatus)
      modifies this`reported
      ensures reported == old(reported) + [hs]
    {
      hs :| true;
      reported := reported + [hs];
    }

    method CloseOutbound()
      modifies this`outboundClosed, this`closedAt
      ensures outboundClosed
      ensures closedAt == if old(outboundClosed) then old(closedAt) else |wrapResults|
    {
      if !outboundClosed {
        closedAt := |wrapResults|;
      }
      outboundClosed := true;
    }

    predicate IsInboundDone()
      reads this
    {
      inboundDone
    }

    predicate IsOutboundDone()
      reads this
    {
      outboundDone
    }

    /** getDelegatedTask(): a task while any is pending, then null (false). */
    method GetDelegatedTask() returns (task: bool)
      modifies this`pendingTasks
      ensures task <==> old(pendingTasks) > 0
      ensures pendingTasks == if task then old(pendingTasks) - 1 else 0
    {
      task := pendingTasks > 0;
      if task {
        pendingTasks := pendingTasks - 1;
      }
    }

    /** wrap(src, dst): takes some of src's remaining plaintext and puts some
        ciphertext at dst's position. BUFFER_OVERFLOW and BUFFER_UNDERFLOW
        move no bytes; the session sizes, the pending tasks and outbound-done
        may change. */
    method Wrap(src: ByteBuffer, dst: ByteBuffer) returns (r: EngineResult)
      requires src.Valid() && dst.Valid() && src.hb != dst.hb
      modifies this, src`position, dst`position, dst.hb
      ensures src.Valid() && dst.Valid()
      ensures src.position == old(src.position) + r.bytesConsumed
      ensures dst.position == old(dst.position) + r.bytesProduced
      ensures r.status in {BufferOverflow, BufferUnderflow} ==> r.bytesConsumed == 0 && r.bytesProduced == 0
      ensures dst.hb[..old(dst.position)] == old(dst.hb[..dst.position])
      ensures dst.hb[dst.position..] == old(dst.hb[..])[dst.position..]
      ensures plainIn == old(plainIn) + src.hb[old(src.position)..src.position]
      ensures cipherOut == old(cipherOut) + dst.hb[old(dst.position)..dst.position]
      ensures cipherIn == old(cipherIn) && plainOut == old(plainOut)
      ensures wrapResults == old(wrapResults) + [r] && unwrapResults == old(unwrapResults)
      ensures reported == old(reported) + [r.handshakeStatus]
      ensures handshakeBegun == old(handshakeBegun) && outboundClosed == old(outboundClosed) && closedAt == old(closedAt)
      ensures inboundDone == old(inboundDone) && (old(outboundDone) ==> outboundDone)
    {
      var taken, out;
      r, taken, out := Move(src, dst);
      plainIn, cipherOut := plainIn + taken, cipherOut + out;
      wrapResults, reported := wrapResults + [r], reported + [r.handshakeStatus];
      var done := ChangeSession();
      outboundDone := outboundDone || done;
    }

    /** unwrap(src, dst): the same contract with the roles of the logs swapped. */
    method Unwrap(src: ByteBuffer, dst: ByteBuffer) returns (r: EngineResult)
      requires src.Valid() && dst.Valid() && src.hb != dst.hb
      modifies this, src`position, dst`position, dst.hb
      ensures src.Valid() && dst.Valid()
      ensures src.position == old(src.position) + r.bytesConsumed
      ensures dst.position == old(dst.position) + r.bytesProduced
      ensures r.status in {BufferOverflow, BufferUnderflow} ==> r.bytesConsumed == 0 && r.bytesProduced == 0
      ensures dst.hb[..old(dst.position)] == old(dst.hb[..dst.position])
      ensures dst.hb[dst.position..] == old(dst.hb[..])[dst.position..]
      ensures cipherIn == old(cipherIn) + src.hb[old(src.position)..src.position]
      ensures plainOut == old(plainOut) + dst.hb[old(dst.position)..dst.position]
      ensures plainIn == old(plainIn) && cipherOut == old(cipherOut)
      ensures unwrapResults == old(unwrapResults) + [r] && wrapResults == old(wrapResults)
      ensures reported == old(reported) + [r.handshakeStatus]
      ensures handshakeBegun == old(handshakeBegun) && outboundClosed == old(outboundClosed) && closedAt == old(closedAt)
      ensures outboundDone == old(outboundDone) && (old(inboundDone) ==> inboundDone)
    {
      var taken, out;
      r, taken, out := Move(src, dst);
      cipherIn, plainOut := cipherIn + taken, plainOut + out;
      unwrapResults, reported := unwrapResults + [r], reported + [r.handshakeStatus];
      var done := ChangeSession();
      inboundDone := inboundDone || done;
    }

    /** The byte movement shared by wrap and unwrap: an arbitrary answer
        whose counts fit the two buffers. */
    static method Move(src: ByteBuffer, dst: ByteBuffer) returns (r: EngineResult, taken: seq<byte>, out: seq<byte>)
      requires src.Valid() && dst.Valid() && src.hb != dst.hb
      modifies src`position, dst`position, dst.hb
      ensures src.Valid() && dst.Valid()
      ensures src.position == old(src.position) + r.bytesConsumed
      ensures dst.position == old(dst.position) + r.bytesProduced
      ensures r.status in {BufferOverflow, BufferUnderflow} ==> r.bytesConsumed == 0 && r.bytesProduced == 0
      ensures dst.hb[..old(dst.position)] == old(dst.hb[..dst.position])
      ensures dst.hb[dst.position..] == old(dst.hb[..])[dst.position..]
      ensures taken == src.hb[old(src.position)..src.position]
      ensures out == dst.hb[old(dst.position)..dst.position]
    {
      var status: Status :| true;
      var hs: HandshakeStatus :| true;
      var consumed: nat, produced: nat := 0, 0;
      if status != BufferOverflow && status != BufferUnderflow {
        consumed :| consumed <= src.limit - src.position;
        produced :| produced <= dst.limit - dst.position;
      }
      out :| |out| == produced by {
        assert |Zeros(produced)| == produced;
      }
      taken := src.hb[src.position..src.position + consumed];
      src.position := src.position + consumed;
      ghost var before := dst.hb[..];
      ghost var at := dst.position;
      var overflow := dst.PutBytes(out);
      assert dst.hb[..] == before[..at] + out + before[at + produced..];
      assert dst.hb[at..dst.position] == out;
      r := EngineResult(status, hs, consumed, produced);
    }

    /** What an engine call may change besides the bytes: the session sizes,
        the delegated tasks, and whether one direction is done. */
    method ChangeSession() returns (done: bool)
      modifies this`pendingTasks, this`applicationBufferSize, this`packetBufferSize
    {
      done :| true;
      var tasks: nat :| true;
      var appSize: nat :| true;
      var packetSize: nat :| true;
      pendingTasks, applicationBufferSize, packetBufferSize := tasks, appSize, packetSize;
    }
  }

  /** A connected non-blocking SocketChannel seen from the server. */
  class Channel {
    const remoteHost: string    // InetSocketAddress.getHostName() of the peer
    const remotePort: int       // InetSocketAddress.getPort() of the peer
    var inbound: seq<byte>      // bytes the peer has sent that have not been read yet
    var peerClosed: bool        // the peer shut its output down after inbound
    var received: seq<byte>     // every byte read so far
    var sent: seq<byte>         // every byte written so far
    var open: bool

    constructor (host: string, port: int, incoming: seq<byte>, closed: bool)
      ensures remoteHost == host && remotePort == port
      ensures inbound == incoming && peerClosed == closed
      ensures received == [] && sent == [] && open
    {
      remoteHost, remotePort := host, port;
      inbound, peerClosed := incoming, closed;
      received, sent, open := [], [], true;
    }

    /** read(dst): -1 at end of stream when dst has room; otherwise any
        number of the waiting bytes that fit (a non-blocking read may return
        0, and a read into a full buffer returns 0). */
    method Read(dst: ByteBuffer) returns (n: int)
      requires dst.Valid()
      modifies this`inbound, this`received, dst`position, dst.hb
      ensures dst.Valid()
      ensures n == -1 <==> old(inbound) == [] && peerClosed && old(dst.position < dst.limit)
      ensures n == -1 ==> dst.position == old(dst.position) && dst.hb[..] == old(dst.hb[..])
      ensures n == -1 ==> inbound == old(inbound) && received == old(received)
      ensures n != -1 ==> 0 <= n <= |old(inbound)| && dst.position == old(dst.position) + n
      ensures n != -1 ==> inbound == old(inbound)[n..] && received == old(received) + old(inbound)[..n]
      ensures n != -1 ==> dst.hb[..] == old(dst.hb[..dst.position] + inbound[..n] + dst.hb[dst.position + n..])
    {
      if inbound == [] && peerClosed && dst.position < dst.limit {
        n := -1;
      } else {
        var k: nat :| k <= |inbound| && k <= dst.limit - dst.position;
        var overflow := dst.PutBytes(inbound[..k]);
        received := received + inbound[..k];
        inbound := inbound[k..];
        n := k;
      }
    }

    /** write(src): any number of src's remaining bytes (a short write may be 0). */
    method Write(src: ByteBuffer) returns (n: nat)
      requires src.Valid()
      modifies this`sent, src`position
      ensures src.Valid()
      ensures src.position == old(src.position) + n
      ensures sent == old(sent) + src.hb[old(src.position)..src.position]
    {
      n :| n <= src.limit - src.position;
      sent := sent + src.hb[src.position..src.position + n];
      src.position := src.position + n;
    }

    method Close()
      modifies this`open
      ensures !open
    {
      open := false;
    }
  }
}
