/** The proxy server's own bookkeeping around the socket handler: the
    reading queue of selected keys, one bounded write queue per peer
    address, the worker that runs the script over each request, the
    per-key reactor dispatch, the script-refresh change detector and the
    active flag. The server is generic in its socket handler, so what the
    handler answers for accept and read is a parameter of the dispatch. */
module Dispatch {
  import opened Outcomes
  import opened ByteBuffers
  import opened AddressKeys
  import opened BoundedQueues

  /** Capacity of every per-peer write queue. */
  const WritingQueueCapacity: nat := 1000

  /** A socket's remote address. */
  datatype Peer = Peer(hostName: string, port: int)

  function PeerKey(p: Peer): string {
    AddressKey(p.hostName, p.port)
  }

  /** A selected key: the ready operations the selector reported, the
      remote address of its socket, and the attachment, which a later
      read replaces in place. */
  class SelectionKey {
    const peer: Peer
    const acceptable: bool
    const readable: bool
    const writable: bool
    var attachment: Option<seq<byte>>

    constructor (peer: Peer, acceptable: bool, readable: bool, writable: bool)
      ensures this.peer == peer && this.acceptable == acceptable
      ensures this.readable == readable && this.writable == writable
      ensures attachment.None?
    {
      this.peer := peer;
      this.acceptable := acceptable;
      this.readable := readable;
      this.writable := writable;
      attachment := None;
    }
  }

  /** What the script file looks like when refreshGroovyScript looks at
      it: whether it exists, its modification time, its bytes, and the
      count Files.copy reports. */
  datatype ScriptFile = ScriptFile(present: bool, lastModifiedTime: int, bytes: seq<byte>, bytesCopied: int)

  /** The stored timestamp (null before the first load) and the script text
      (null before the first successful load). */
  datatype ScriptCache = ScriptCache(lastModified: Option<int>, script: Option<seq<byte>>)

  /** refreshGroovyScript as a state transition: a missing file is
      NullPointerException; an unchanged timestamp changes nothing; a
      changed one is stored before the copy, and the script is replaced
      only when the copied count matches. */
  function Refresh(cache: ScriptCache, file: ScriptFile): (r: (ScriptCache, Outcome<()>))
    ensures r.1 == Threw(NullPointerException) <==> !file.present
    ensures r.1 == Threw(IOException) <==>
      file.present && cache.lastModified != Some(file.lastModifiedTime) && file.bytesCopied != |file.bytes|
    ensures !r.1.Stalled? && (r.1.Threw? ==> r.1.exception in {NullPointerException, IOException})
    ensures file.present ==> r.0.lastModified == Some(file.lastModifiedTime)
    ensures r.0.script != cache.script ==> r.0.script == Some(file.bytes) && r.1.Returned?
    ensures r.1.Returned? && cache.lastModified != Some(file.lastModifiedTime) ==> r.0.script == Some(file.bytes)
    ensures cache.lastModified == Some(file.lastModifiedTime) || !file.present ==> r.0 == cache
  {
    if !file.present then (cache, Threw(NullPointerException))
    else if cache.lastModified.Some? && cache.lastModified.value == file.lastModifiedTime then (cache, Returned(()))
    else if file.bytesCopied != |file.bytes| then (ScriptCache(Some(file.lastModifiedTime), cache.script), Threw(IOException))
    else (ScriptCache(Some(file.lastModifiedTime), Some(file.bytes)), Returned(()))
  }

  /** Refreshing twice from the same file leaves the state of one refresh,
      and the second refresh of a present file does nothing and succeeds. */
  lemma RefreshIdempotent(cache: ScriptCache, file: ScriptFile)
    ensures Refresh(Refresh(cache, file).0, file).0 == Refresh(cache, file).0
    ensures file.present ==> Refresh(Refresh(cache, file).0, file).1 == Returned(())
  {
  }

  /** A copy whose size does not match keeps the old script and still
      records the new timestamp, so the same file is never read again: the
      old script stays until the file's timestamp changes once more. */
  lemma FailedCopyNotRetried(cache: ScriptCache, file: ScriptFile, later: ScriptFile)
    requires Refresh(cache, file).1 == Threw(IOException)
    requires later.present && later.lastModifiedTime == file.lastModifiedTime
    ensures Refresh(Refresh(cache, file).0, later) == (ScriptCache(Some(file.lastModifiedTime), cache.script), Returned(()))
  {
  }

  /** The write-queue map after the worker's get-or-create for address: a
      queue of capacity 1000 is added only when there is none; nothing
      else changes. */
  function WithWritingQueue(queues: map<string, BoundedQueue<seq<byte>>>, address: string)
    : (r: map<string, BoundedQueue<seq<byte>>>)
    ensures address in r && r.Keys == queues.Keys + {address}
    ensures address in queues ==> r[address] == queues[address]
    ensures address !in queues ==> r[address] == Empty(WritingQueueCapacity)
    ensures forall a :: a in queues ==> r[a] == queues[a]
  {
    if address in queues then queues else queues[address := Empty(WritingQueueCapacity)]
  }

  lemma WithWritingQueueIdempotent(queues: map<string, BoundedQueue<seq<byte>>>, address: string)
    ensures WithWritingQueue(WithWritingQueue(queues, address), address) == WithWritingQueue(queues, address)
  {
  }

  /** What the script gives for a request: a byte array or null; an
      IOException, which Groovy lets a script throw unchecked (the script is
      handed the socket channel) and which the worker catches; or any other
      exception, which the worker does not catch. */
  datatype ScriptRun = Result(bytes: Option<seq<byte>>) | RaisedIO | Raised

  /** How one pass of the worker ended. */
  datatype WorkerStep =
    | Served          // the result is at the tail of the peer's write queue
    | Idle            // the reading queue is empty: take() would block
    | QueueFull       // the peer's write queue is full: put() would block
    | Recovered       // the script raised IOException: caught and logged, the worker goes on
    | Died            // the script raised anything else, or gave null to put(): the thread ends

  /** How the reactor's handling of one selected key ended. */
  datatype KeyStep =
    | Handled             // every ready branch ran
    | SkippedRest         // the read gave null: continue with the next key
    | Caught(e: JavaException)  // the handler threw; the catch around the key logs it
    | Waiting             // the reading queue is full, or the handler spins

  /** s is what is left of t after some items were taken from its head. */
  ghost predicate IsSuffix<T>(s: seq<T>, t: seq<T>) {
    |s| <= |t| && s == t[|t| - |s|..]
  }

  lemma SuffixOfTail<T>(x: T, s: seq<T>, m: seq<T>, t: seq<T>)
    requires [x] + s == m && IsSuffix(m, t)
    ensures IsSuffix(s, t) && |s| == |m| - 1
  {
    assert s == m[1..];
  }

  /** One worker pass for a key of peer whose script run gave run: the
      peer's queue is found or created; an IOException is caught; the
      worker dies on any other exception or a null result; otherwise the
      result goes to the tail of that queue, unless the queue is full. */
  ghost predicate WorkerPass(step: WorkerStep, peer: Peer, run: ScriptRun,
                             before: map<string, BoundedQueue<seq<byte>>>, after: map<string, BoundedQueue<seq<byte>>>)
  {
    var address := PeerKey(peer);
    var queues := WithWritingQueue(before, address);
    && step != Idle
    && (step == Recovered <==> run == RaisedIO)
    && (step == Died <==> run == Raised || run == Result(None))
    && (step == QueueFull <==> run.Result? && run.bytes.Some? && Put(queues[address], run.bytes.value).None?)
    && (step != Served ==> after == queues)
    && (step == Served ==> after == queues[address := Put(queues[address], run.bytes.value).value])
  }

  /** The worker goes on to the next key after these passes. */
  predicate Continues(step: WorkerStep)
  {
    step == Served || step == Recovered
  }

  /** The worker's passes over keys, in the order it took them, with the
      script run stored in script: steps[i] is how the pass over keys[i]
      ended, taking the write-queue map from maps[i] to maps[i + 1]. */
  ghost predicate WorkerTrace(process: (Option<seq<byte>>, Option<seq<byte>>, Peer) -> ScriptRun, script: Option<seq<byte>>,
                              keys: seq<SelectionKey>, steps: seq<WorkerStep>, maps: seq<map<string, BoundedQueue<seq<byte>>>>)
    reads keys
  {
    && |steps| == |keys| && |maps| == |keys| + 1
    && forall i :: 0 <= i < |keys| ==>
         WorkerPass(steps[i], keys[i].peer, process(script, keys[i].attachment, keys[i].peer), maps[i], maps[i + 1])
  }

  lemma WorkerTraceSnoc(process: (Option<seq<byte>>, Option<seq<byte>>, Peer) -> ScriptRun, script: Option<seq<byte>>,
                        keys: seq<SelectionKey>, steps: seq<WorkerStep>, maps: seq<map<string, BoundedQueue<seq<byte>>>>,
                        key: SelectionKey, step: WorkerStep, after: map<string, BoundedQueue<seq<byte>>>)
    requires WorkerTrace(process, script, keys, steps, maps)
    requires WorkerPass(step, key.peer, process(script, key.attachment, key.peer), maps[|keys|], after)
    ensures WorkerTrace(process, script, keys + [key], steps + [step], maps + [after])
  {
    var keys', steps', maps' := keys + [key], steps + [step], maps + [after];
    forall i | 0 <= i < |keys'|
      ensures WorkerPass(steps'[i], keys'[i].peer, process(script, keys'[i].attachment, keys'[i].peer), maps'[i], maps'[i + 1])
    {
      if i < |keys| {
        assert keys'[i] == keys[i] && steps'[i] == steps[i] && maps'[i] == maps[i] && maps'[i + 1] == maps[i + 1];
      }
    }
  }

  /** A writable event for peer: at most one message, the head of the
      peer's write queue, leaves that queue and is handed to the handler's
      write; every other queue stays as it was. */
  function WriteEffect(queues: map<string, BoundedQueue<seq<byte>>>, delivered: seq<(Peer, seq<byte>)>, peer: Peer)
    : (r: (map<string, BoundedQueue<seq<byte>>>, seq<(Peer, seq<byte>)>))
    ensures r.1 == delivered <==> PeerKey(peer) !in queues || queues[PeerKey(peer)].items == []
    ensures r.1 == delivered ==> r.0 == queues
    ensures r.1 != delivered ==>
      var address := PeerKey(peer);
      && |r.1| == |delivered| + 1 && r.1[..|delivered|] == delivered && r.1[|delivered|].0 == peer
      && r.0.Keys == queues.Keys && r.0[address].capacity == queues[address].capacity
      && [r.1[|delivered|].1] + r.0[address].items == queues[address].items
      && forall a :: a in queues && a != address ==> r.0[a] == queues[a]
  {
    var address := PeerKey(peer);
    if address in queues && queues[address].items != [] then
      var polled := Poll(queues[address]);
      (queues[address := polled.1], delivered + [(peer, polled.0.value)])
    else (queues, delivered)
  }

  /** A read that gave a non-null, non-empty array. */
  predicate NonEmptyRead(readResult: Outcome<Option<seq<byte>>>) {
    readResult.Returned? && readResult.value.Some? && |readResult.value.value| > 0
  }

  /** Whether the readable branch lets the key's handling go on: the read
      gave an empty array, or gave bytes and put found room (put is the
      queue's answer to that put). */
  predicate ReadGoesOn<T>(readResult: Outcome<Option<seq<byte>>>, put: Option<BoundedQueue<T>>) {
    readResult == Returned(Some([])) || (NonEmptyRead(readResult) && put.Some?)
  }

  class Server {
    var readingQueue: BoundedQueue<SelectionKey>
    var writingQueues: map<string, BoundedQueue<seq<byte>>>
    var isActive: bool
    var groovyScript: Option<seq<byte>>
    var lastModified: Option<int>
    var registered: seq<Peer>                 // sockets registered for read and write
    var delivered: seq<(Peer, seq<byte>)>     // messages handed to the handler's write

    ghost predicate Valid()
      reads this
    {
      && readingQueue.Valid()
      && forall a :: a in writingQueues ==>
           writingQueues[a].Valid() && writingQueues[a].capacity == WritingQueueCapacity
    }

    /** The server once the reading queue has accepted its capacity. */
    constructor (readingClientQueueSize: nat)
      requires readingClientQueueSize > 0
      ensures Valid() && readingQueue == Empty(readingClientQueueSize)
      ensures writingQueues == map[] && !isActive
      ensures groovyScript.None? && lastModified.None?
      ensures registered == [] && delivered == []
    {
      readingQueue := Empty(readingClientQueueSize);
      writingQueues := map[];
      isActive := false;
      groovyScript := None;
      lastModified := None;
      registered := [];
      delivered := [];
    }

    /** new Server(handler, path, readingCleintQueueSize): the reading
        queue gets the capacity the caller asks for, and LinkedBlockingQueue
        refuses one below 1 with IllegalArgumentException. */
    static method Create(readingClientQueueSize: int) returns (r: Outcome<Server>)
      ensures r.Threw? <==> readingClientQueueSize <= 0
      ensures r.Threw? ==> r.exception == IllegalArgumentException
      ensures !r.Stalled?
      ensures r.Returned? ==>
        && fresh(r.value) && r.value.Valid() && r.value.readingQueue == Empty(readingClientQueueSize)
        && r.value.writingQueues == map[] && !r.value.isActive
    {
      if readingClientQueueSize <= 0 {
        return Threw(IllegalArgumentException);
      }
      var server := new Server(readingClientQueueSize);
      r := Returned(server);
    }

    /** The synchronized get-or-create on the write-queue map, as one step. */
    method GetOrCreateWritingQueue(address: string)
      requires Valid()
      modifies this`writingQueues
      ensures Valid() && writingQueues == WithWritingQueue(old(writingQueues), address)
    {
      if address !in writingQueues {
        writingQueues := writingQueues[address := Empty(WritingQueueCapacity)];
      }
    }

    /** One pass of a worker: take the head of the reading queue, find or
        create the peer's write queue, run the script over the key's
        current attachment, and put the result at the tail of that queue.
        An IOException from the script is caught after the key and the
        queue are taken care of. */
    method ServeOne(process: (Option<seq<byte>>, Option<seq<byte>>, Peer) -> ScriptRun)
      returns (step: WorkerStep, ghost key: SelectionKey?)
      requires Valid()
      modifies this`readingQueue, this`writingQueues
      ensures Valid()
      ensures step == Idle <==> old(readingQueue.items) == []
      ensures step == Idle ==> readingQueue == old(readingQueue) && writingQueues == old(writingQueues)
      ensures step != Idle ==>
        key != null && [key] + readingQueue.items == old(readingQueue.items) && readingQueue.capacity == old(readingQueue.capacity)
      ensures step != Idle ==>
        WorkerPass(step, key.peer, process(old(groovyScript), key.attachment, key.peer), old(writingQueues), writingQueues)
      ensures writingQueues.Keys >= old(writingQueues).Keys
    {
      key := null;
      if readingQueue.items == [] {
        return Idle, key;
      }
      var taken := Poll(readingQueue);
      var head := taken.0.value;
      readingQueue, key := taken.1, head;
      var address := PeerKey(head.peer);
      GetOrCreateWritingQueue(address);
      var data := head.attachment;
      var run := process(groovyScript, data, head.peer);
      if run.RaisedIO? {
        return Recovered, key;
      }
      if run.Raised? || run.bytes.None? {
        return Died, key;
      }
      match Put(writingQueues[address], run.bytes.value)
      case None =>
        step := QueueFull;
      case Some(q) =>
        writingQueues := writingQueues[address := q];
        step := Served;
    }

    /** Where the worker stands after served passes: it took the first
        served keys of items0 off the reading queue, and steps and maps
        record what became of each, from the write-queue map writing0 on. */
    ghost predicate Worked(process: (Option<seq<byte>>, Option<seq<byte>>, Peer) -> ScriptRun,
                           items0: seq<SelectionKey>, writing0: map<string, BoundedQueue<seq<byte>>>, served: nat,
                           steps: seq<WorkerStep>, maps: seq<map<string, BoundedQueue<seq<byte>>>>)
      reads this, items0
    {
      && IsSuffix(readingQueue.items, items0)
      && served == |items0| - |readingQueue.items|
      && WorkerTrace(process, groovyScript, items0[..served], steps, maps)
      && maps[0] == writing0 && maps[served] == writingQueues
    }

    /** One pass of the worker loop, recorded in its trace. */
    method ServeAndRecord(process: (Option<seq<byte>>, Option<seq<byte>>, Peer) -> ScriptRun,
                          ghost items0: seq<SelectionKey>, ghost writing0: map<string, BoundedQueue<seq<byte>>>, served: nat,
                          ghost steps: seq<WorkerStep>, ghost maps: seq<map<string, BoundedQueue<seq<byte>>>>)
      returns (step: WorkerStep, ghost steps': seq<WorkerStep>, ghost maps': seq<map<string, BoundedQueue<seq<byte>>>>)
      requires Valid() && Worked(process, items0, writing0, served, steps, maps)
      modifies this`readingQueue, this`writingQueues
      ensures Valid()
      ensures step == Idle ==> readingQueue.items == [] && readingQueue == old(readingQueue) && writingQueues == old(writingQueues)
      ensures step == Idle ==> steps' == steps && maps' == maps && Worked(process, items0, writing0, served, steps, maps)
      ensures step != Idle ==>
        steps' == steps + [step] && Worked(process, items0, writing0, served + 1, steps', maps')
    {
      ghost var items := readingQueue.items;
      ghost var key;
      step, key := ServeOne(process);
      steps', maps' := steps, maps;
      if step != Idle {
        SuffixOfTail(key, readingQueue.items, items, items0);
        assert items0[..served + 1] == items0[..served] + [key];
        WorkerTraceSnoc(process, groovyScript, items0[..served], steps, maps, key, step, writingQueues);
        steps', maps' := steps + [step], maps + [writingQueues];
      }
    }

    /** The worker loop: checks isActive before each take and keeps
        serving, after a served key and after a caught IOException alike,
        until a take or a put would block or the thread dies. keys are the
        keys it took, from the head of the reading queue, and steps and
        maps record what became of each. */
    method RunWorker(process: (Option<seq<byte>>, Option<seq<byte>>, Peer) -> ScriptRun, fuel: nat)
      returns (stop: Option<WorkerStep>, served: nat, ghost steps: seq<WorkerStep>,
               ghost maps: seq<map<string, BoundedQueue<seq<byte>>>>)
      requires Valid()
      modifies this`readingQueue, this`writingQueues
      ensures Valid()
      ensures !isActive ==>
        stop.None? && served == 0 && readingQueue == old(readingQueue) && writingQueues == old(writingQueues)
      ensures IsSuffix(readingQueue.items, old(readingQueue.items))
      ensures served == |old(readingQueue.items)| - |readingQueue.items|
      ensures WorkerTrace(process, groovyScript, old(readingQueue.items)[..served], steps, maps)
      ensures maps[0] == old(writingQueues) && maps[served] == writingQueues
      ensures forall i :: 0 <= i < served - 1 ==> Continues(steps[i])
      ensures stop == Some(Idle) ==> readingQueue.items == []
      ensures stop.Some? && stop.value != Idle ==> served > 0 && steps[served - 1] == stop.value && !Continues(stop.value)
      ensures (stop.None? || stop == Some(Idle)) && served > 0 ==> Continues(steps[served - 1])
      ensures stop.None? && isActive ==> served == fuel
    {
      ghost var items0, writing0 := readingQueue.items, writingQueues;
      served := 0;
      stop := None;
      steps, maps := [], [writingQueues];
      var rest := fuel;
      while isActive
        invariant Valid() && Worked(process, items0, writing0, served, steps, maps) && |steps| == served
        invariant forall i :: 0 <= i < served ==> Continues(steps[i])
        invariant !isActive ==> served == 0 && readingQueue == old(readingQueue) && writingQueues == old(writingQueues)
        invariant isActive ==> served + rest == fuel
        decreases rest
      {
        if rest == 0 {
          return;
        }
        rest := rest - 1;
        var step;
        step, steps, maps := ServeAndRecord(process, items0, writing0, served, steps, maps);
        if step == Idle {
          return Some(Idle), served, steps, maps;
        }
        served := served + 1;
        if !Continues(step) {
          return Some(step), served, steps, maps;
        }
      }
    }

    /** The acceptable branch: the new socket is registered only when the
        handshake returned true; an exception or a spinning handler ends
        the key's handling. */
    method AcceptReady(accepted: Peer, acceptResult: Outcome<bool>) returns (stop: Option<KeyStep>)
      modifies this`registered
      ensures registered == if acceptResult == Returned(true) then old(registered) + [accepted] else old(registered)
      ensures stop.None? <==> acceptResult.Returned?
      ensures acceptResult.Threw? ==> stop == Some(Caught(acceptResult.exception))
      ensures acceptResult.Stalled? ==> stop == Some(Waiting)
    {
      match acceptResult
      case Threw(e) =>
        return Some(Caught(e));
      case Stalled =>
        return Some(Waiting);
      case Returned(handshaken) =>
        if handshaken {
          registered := registered + [accepted];
        }
        stop := None;
    }

    /** The readable branch: a non-empty result is attached to the key and
        put on the reading queue; a null result ends the key's handling;
        an empty one falls through. */
    method ReadReady(key: SelectionKey, readResult: Outcome<Option<seq<byte>>>) returns (stop: Option<KeyStep>)
      requires Valid()
      modifies this`readingQueue, key`attachment
      ensures Valid()
      ensures readResult == Returned(None) ==> stop == Some(SkippedRest)
      ensures readResult.Threw? ==> stop == Some(Caught(readResult.exception))
      ensures readResult.Stalled? ==> stop == Some(Waiting)
      ensures readResult == Returned(Some([])) ==> stop.None?
      ensures NonEmptyRead(readResult) ==>
        && key.attachment == readResult.value
        && (Put(old(readingQueue), key).None? ==> stop == Some(Waiting))
        && (Put(old(readingQueue), key).Some? ==> stop.None? && readingQueue == Put(old(readingQueue), key).value)
      ensures !NonEmptyRead(readResult) ==> readingQueue == old(readingQueue) && key.attachment == old(key.attachment)
      ensures stop.None? <==> ReadGoesOn(readResult, Put(old(readingQueue), key))
    {
      match readResult
      case Threw(e) =>
        return Some(Caught(e));
      case Stalled =>
        return Some(Waiting);
      case Returned(bytes) =>
        if bytes.None? {
          return Some(SkippedRest);
        }
        stop := None;
        if |bytes.value| > 0 {
          key.attachment := bytes;
          match Put(readingQueue, key)
          case None =>
            stop := Some(Waiting);
          case Some(q) =>
            readingQueue := q;
        }
    }

    /** The writable branch: at most one message, the head of the peer's
        write queue, is handed to the handler's write. */
    method WriteReady(key: SelectionKey)
      requires Valid()
      modifies this`writingQueues, this`delivered
      ensures Valid()
      ensures (writingQueues, delivered) == WriteEffect(old(writingQueues), old(delivered), key.peer)
    {
      var address := PeerKey(key.peer);
      if address in writingQueues {
        var polled := Poll(writingQueues[address]);
        if polled.0.Some? {
          writingQueues := writingQueues[address := polled.1];
          delivered := delivered + [(key.peer, polled.0.value)];
        }
      }
    }

    /** The readable branch, then the writable one unless the read ended
        the key's handling. */
    method ReadThenWrite(key: SelectionKey, readResult: Outcome<Option<seq<byte>>>) returns (step: KeyStep)
      requires Valid()
      modifies this`readingQueue, this`writingQueues, this`delivered, key`attachment
      ensures Valid()
      ensures key.readable && readResult == Returned(None) ==> step == SkippedRest
      ensures key.readable && readResult.Threw? ==> step == Caught(readResult.exception)
      ensures key.readable && readResult.Stalled? ==> step == Waiting
      ensures step == Handled <==> !key.readable || ReadGoesOn(readResult, Put(old(readingQueue), key))
      ensures key.readable && NonEmptyRead(readResult) ==>
        && key.attachment == readResult.value
        && (Put(old(readingQueue), key).None? ==> step == Waiting)
        && (Put(old(readingQueue), key).Some? ==> readingQueue == Put(old(readingQueue), key).value)
      ensures !(key.readable && NonEmptyRead(readResult)) ==>
        readingQueue == old(readingQueue) && key.attachment == old(key.attachment)
      ensures step == Handled && key.writable ==>
        (writingQueues, delivered) == WriteEffect(old(writingQueues), old(delivered), key.peer)
      ensures !(step == Handled && key.writable) ==> writingQueues == old(writingQueues) && delivered == old(delivered)
    {
      if key.readable {
        var stop := ReadReady(key, readResult);
        if stop.Some? {
          return stop.value;
        }
      }
      if key.writable {
        WriteReady(key);
      }
      step := Handled;
    }

    /** The reactor's handling of one selected key, given what the handler
        answered: the acceptable, readable and writable branches in turn,
        any of which may end the key's handling. */
    method HandleKey(key: SelectionKey, accepted: Peer, acceptResult: Outcome<bool>,
                     readResult: Outcome<Option<seq<byte>>>)
      returns (step: KeyStep)
      requires Valid()
      modifies this`registered, this`readingQueue, this`writingQueues, this`delivered, key`attachment
      ensures Valid()
      ensures registered == if key.acceptable && acceptResult == Returned(true)
        then old(registered) + [accepted] else old(registered)
      ensures key.acceptable && !acceptResult.Returned? ==>
        step == (if acceptResult.Threw? then Caught(acceptResult.exception) else Waiting)
        && readingQueue == old(readingQueue) && writingQueues == old(writingQueues) && delivered == old(delivered)
      ensures var read := key.readable && (!key.acceptable || acceptResult.Returned?);
        && (read && readResult == Returned(None) ==> step == SkippedRest)
        && (read && readResult.Threw? ==> step == Caught(readResult.exception))
        && (read && readResult.Stalled? ==> step == Waiting)
        && (read && NonEmptyRead(readResult) ==>
              key.attachment == readResult.value
              && (Put(old(readingQueue), key).None? ==> step == Waiting)
              && (Put(old(readingQueue), key).Some? ==> readingQueue == Put(old(readingQueue), key).value))
        && (!(read && NonEmptyRead(readResult)) ==> readingQueue == old(readingQueue) && key.attachment == old(key.attachment))
      ensures step == Handled <==>
        (!key.acceptable || acceptResult.Returned?) && (!key.readable || ReadGoesOn(readResult, Put(old(readingQueue), key)))
      ensures step == Handled && key.writable ==>
        (writingQueues, delivered) == WriteEffect(old(writingQueues), old(delivered), key.peer)
      ensures !(step == Handled && key.writable) ==> writingQueues == old(writingQueues) && delivered == old(delivered)
    {
      if key.acceptable {
        var stop := AcceptReady(accepted, acceptResult);
        if stop.Some? {
          return stop.value;
        }
      }
      step := ReadThenWrite(key, readResult);
    }

    /** refreshGroovyScript over the file as it is now. */
    method RefreshGroovyScript(file: ScriptFile) returns (r: Outcome<()>)
      modifies this`lastModified, this`groovyScript
      ensures (ScriptCache(lastModified, groovyScript), r) == Refresh(ScriptCache(old(lastModified), old(groovyScript)), file)
    {
      if !file.present {
        return Threw(NullPointerException);
      }
      if lastModified.None? || lastModified.value != file.lastModifiedTime {
        lastModified := Some(file.lastModifiedTime);
        if file.bytesCopied != |file.bytes| {
          return Threw(IOException);
        }
        groovyScript := Some(file.bytes);
      }
      r := Returned(());
    }

    /** The step of start that sets the flag the workers test before each
        take, once the server socket is bound and registered. */
    method Start()
      modifies this`isActive
      ensures isActive
    {
      isActive := true;
    }

    /** close: clears the flag the workers test before each take. */
    method Close()
      modifies this`isActive
      ensures !isActive
    {
      isActive := false;
    }
  }
}
