/** Scheduler: the producer records commands into the current chunk; Flush
  * hands a non-empty chunk to a FIFO work queue and takes a replacement from
  * a LIFO reserve; the worker runs queued chunks in order and returns them to
  * the reserve. The worker thread is modelled by an explicit step method. */
module VKScheduler {
  import opened CommonTypes
  import opened SchedulerChunk
  import opened CommandBufferManagement

  /** The layout of the TypedCommand wrapping the lambda SubmitCommandBuffer
    * records (a vtable pointer, the `next` link and its five captures). */
  const SubmitCommandSize: nat := 48
  const SubmitCommandAlign: nat := 16

  function SubmitCommand(fenceCounter: nat, submitOnWorkerThread: bool, waitForCompletion: bool,
                         presentSwapChain: Handle, presentImageIndex: u32): (c: Command)
    ensures WellFormed(c)
  {
    assert Align.IsPowerOfTwo(2) && Align.IsPowerOfTwo(4) && Align.IsPowerOfTwo(8);
    Command(Payload.SubmitCommandBuffer(fenceCounter, submitOnWorkerThread, waitForCompletion,
                                        presentSwapChain, presentImageIndex),
            SubmitCommandSize, SubmitCommandAlign)
  }

  /** The concatenation of a sequence of command lists. */
  function Flatten(lists: seq<seq<Command>>): (r: seq<Command>)
  {
    if lists == [] then [] else lists[0] + Flatten(lists[1..])
  }

  lemma {:induction false} FlattenAppend(lists: seq<seq<Command>>, last: seq<Command>)
    ensures Flatten(lists + [last]) == Flatten(lists) + last
  {
    if lists != [] {
      assert (lists + [last])[1..] == lists[1..] + [last];
      FlattenAppend(lists[1..], last);
    } else {
      assert [last][1..] == [];
    }
  }

  /** The fence counter a command carries: a submit command carries the one
    * it was recorded with, any other command none. */
  function CounterOf(c: Command): (r: set<nat>)
    ensures r == {} <==> !c.payload.SubmitCommandBuffer?
  {
    match c.payload
    case SubmitCommandBuffer(fenceCounter, _, _, _, _) => {fenceCounter}
    case Opaque(_) => {}
  }

  /** The fence counters carried by the submit commands among `cmds`. */
  function SubmitCounters(cmds: seq<Command>): (r: set<nat>)
    ensures forall c :: c in cmds ==> CounterOf(c) <= r
  {
    if cmds == [] then {} else SubmitCounters(cmds[..|cmds| - 1]) + CounterOf(cmds[|cmds| - 1])
  }

  /** Running more commands only adds counters: those of the new commands. */
  lemma {:induction false} SubmitCountersAppend(a: seq<Command>, b: seq<Command>)
    ensures SubmitCounters(a + b) == SubmitCounters(a) + SubmitCounters(b)
    decreases |b|
  {
    if b == [] {
      assert a + b == a;
    } else {
      var init := b[..|b| - 1];
      assert (a + b)[..|a + b| - 1] == a + init;
      assert (a + b)[|a + b| - 1] == b[|b| - 1];
      SubmitCountersAppend(a, init);
    }
  }

  /** Recording one more command adds exactly the counter it carries. */
  lemma SubmitCountersSnoc(cmds: seq<Command>, c: Command)
    ensures SubmitCounters(cmds + [c]) == SubmitCounters(cmds) + CounterOf(c)
  {
    assert (cmds + [c])[..|cmds|] == cmds;
  }

  /** The order invariant: what has run, then what is queued, then what is
    * in the current chunk, is what was recorded. */
  ghost predicate InOrder(executed: seq<Command>, queued: seq<seq<Command>>, current: seq<Command>,
                          recorded: seq<Command>)
  {
    executed + Flatten(queued) + current == recorded
  }

  /** What has run is a prefix of what was recorded, so it carries no
    * counter the recorded commands do not. */
  lemma RunCountersRecorded(executed: seq<Command>, queued: seq<seq<Command>>, current: seq<Command>,
                            recorded: seq<Command>)
    requires InOrder(executed, queued, current, recorded)
    ensures SubmitCounters(executed) <= SubmitCounters(recorded)
  {
    SubmitCountersAppend(executed, Flatten(queued));
    SubmitCountersAppend(executed + Flatten(queued), current);
  }

  /** Flushing moves the current chunk's commands to the back of the queue. */
  lemma EnqueueKeepsOrder(executed: seq<Command>, queued: seq<seq<Command>>, current: seq<Command>,
                          recorded: seq<Command>)
    requires InOrder(executed, queued, current, recorded)
    ensures InOrder(executed, queued + [current], [], recorded)
  {
    FlattenAppend(queued, current);
  }

  /** Running the front chunk moves its commands to the executed trace. */
  lemma DequeueKeepsOrder(executed: seq<Command>, queued: seq<seq<Command>>, current: seq<Command>,
                          recorded: seq<Command>)
    requires queued != [] && InOrder(executed, queued, current, recorded)
    ensures InOrder(executed + queued[0], queued[1..], current, recorded)
  {
  }

  /** Recording into the current chunk extends the trace by that command. */
  lemma RecordKeepsOrder(executed: seq<Command>, queued: seq<seq<Command>>, current: seq<Command>,
                         recorded: seq<Command>, c: Command)
    requires InOrder(executed, queued, current, recorded)
    ensures InOrder(executed, queued, current + [c], recorded + [c])
  {
  }

  predicate NoDuplicates<T(==)>(s: seq<T>)
  {
    forall i, j :: 0 <= i < j < |s| ==> s[i] != s[j]
  }

  /** Each chunk is in exactly one place: the current slot, the work queue or
    * the reserve, and at most once there. */
  ghost predicate Distinct(current: CommandChunk, queue: seq<CommandChunk>, reserve: seq<CommandChunk>)
  {
    && current !in queue && current !in reserve
    && NoDuplicates(queue) && NoDuplicates(reserve)
    && (forall c :: c in queue ==> c !in reserve)
  }

  /** Flushing moves the current chunk to the back of the queue and makes the
    * last reserve chunk current. */
  lemma EnqueueKeepsDistinct(current: CommandChunk, queue: seq<CommandChunk>, reserve: seq<CommandChunk>)
    requires Distinct(current, queue, reserve) && reserve != []
    ensures Distinct(reserve[|reserve| - 1], queue + [current], reserve[.. |reserve| - 1])
    ensures forall c :: c in reserve[.. |reserve| - 1] ==> c in reserve
  {
    var next, rest := reserve[|reserve| - 1], reserve[.. |reserve| - 1];
    assert reserve == rest + [next];
    assert next !in rest by {
      forall i | 0 <= i < |rest| ensures rest[i] != next {
        assert rest[i] == reserve[i];
      }
    }
    assert next !in queue + [current];
  }

  /** Flushing into a newly allocated chunk. */
  lemma EnqueueFreshKeepsDistinct(current: CommandChunk, queue: seq<CommandChunk>, next: CommandChunk)
    requires Distinct(current, queue, []) && next != current && next !in queue
    ensures Distinct(next, queue + [current], [])
  {
  }

  /** The worker moves the front chunk of the queue to the back of the reserve. */
  lemma DequeueKeepsDistinct(current: CommandChunk, queue: seq<CommandChunk>, reserve: seq<CommandChunk>)
    requires Distinct(current, queue, reserve) && queue != []
    ensures Distinct(current, queue[1..], reserve + [queue[0]])
    ensures queue[0] != current && queue[0] !in queue[1..]
    ensures forall c :: c in queue[1..] ==> c in queue
  {
    var front, rest := queue[0], queue[1..];
    assert front in queue;
    assert front !in rest by {
      forall i | 0 <= i < |rest| ensures rest[i] != front {
        assert rest[i] == queue[i + 1];
      }
    }
    forall c | c in rest ensures c in queue {
      var i :| 0 <= i < |rest| && rest[i] == c;
      assert queue[i + 1] == c;
    }
  }

  class Scheduler {
    /** m_chunk: the chunk the producer is filling. */
    var chunk: CommandChunk
    /** m_work_queue: flushed chunks, front first. */
    var workQueue: seq<CommandChunk>
    /** m_chunk_reserve: executed chunks kept for reuse, most recent last. */
    var chunkReserve: seq<CommandChunk>
    /** m_worker_idle */
    var workerIdle: bool
    /** m_current_fence_counter */
    var currentFenceCounter: nat
    /** The commands the worker has run, in the order it ran them. */
    var executed: seq<Command>
    /** m_commandBufferManager */
    const manager: CommandBufferManager

    /** The commands of each queued chunk, front of the queue first. */
    ghost var queuedCommands: seq<seq<Command>>
    /** Every command handed to Record, in recording order. */
    ghost var recorded: seq<Command>
    /** The fence counters SubmitCommandBuffer has handed out, in order. */
    ghost var submitted: seq<nat>
    /** Every chunk the scheduler holds: the current one, the queued ones and
      * the reserve. */
    ghost var Repr: set<CommandChunk>

    /** The scheduler's invariant. Each chunk is owned by exactly one of the
      * current slot, the work queue and the reserve; queued chunks are
      * non-empty and reserve chunks empty; the worker is idle exactly when the
      * queue is drained; what has run, followed by what is queued, followed by
      * the current chunk, is exactly what was recorded; the counters
      * handed out so far are 2, 3, ..., one below the current counter; no
      * counter above the current one has completed; every counter a recorded
      * submit command carries was handed out; and every counter from 2 up to
      * the completed one belongs to a submit command that has run. */
    ghost predicate Valid()
      reads this, manager, Repr
    {
      && chunk in Repr && chunk.Valid()
      && Distinct(chunk, workQueue, chunkReserve)
      && (forall c :: c in workQueue ==> c in Repr && c.Valid() && c.nodes != [])
      && (forall c :: c in chunkReserve ==> c in Repr && c.Valid() && c.nodes == [])
      && |queuedCommands| == |workQueue|
      && (forall i :: 0 <= i < |workQueue| ==> workQueue[i].commands == queuedCommands[i])
      && (workerIdle <==> workQueue == [])
      && InOrder(executed, queuedCommands, chunk.commands, recorded)
      && currentFenceCounter == |submitted| + 1
      && (forall i :: 0 <= i < |submitted| ==> submitted[i] == i + 2)
      && manager.completedFenceCounter <= currentFenceCounter
      && (forall c :: c in SubmitCounters(recorded) ==> 2 <= c <= currentFenceCounter)
      && (forall c :: 2 <= c <= manager.completedFenceCounter ==> c in SubmitCounters(executed))
    }

    /** A command carries no fence counter, or one already handed out. Only
      * SubmitCommandBuffer builds submit commands, each with the counter it
      * has just taken. */
    ghost predicate Issued(c: Command)
      reads this
    {
      forall k :: k in CounterOf(c) ==> 2 <= k <= currentFenceCounter
    }

    /** The constructor acquires a first chunk (the reserve is empty, so a new
      * one); the worker starts idle and the fence counter at 1. */
    constructor (numCommandBuffers: nat, numFramesInFlight: nat)
      requires numCommandBuffers > 0 && numFramesInFlight > 0
      ensures Valid() && fresh(Repr) && fresh(manager)
      ensures currentFenceCounter == 1 && workerIdle
      ensures workQueue == [] && chunkReserve == [] && chunk.commands == []
      ensures recorded == [] && executed == [] && submitted == []
      ensures manager.completedFenceCounter == 0
    {
      manager := new CommandBufferManager(numCommandBuffers, numFramesInFlight);
      chunk := new CommandChunk();
      workQueue, chunkReserve := [], [];
      workerIdle := true;
      currentFenceCounter := 1;
      executed := [];
      recorded, submitted, queuedCommands := [], [], [];
      Repr := {chunk};
    }

    /** The counter of the last submission (1 before any), which no
      * completed counter passes. */
    function GetCurrentFenceCounter(): (r: nat)
      requires Valid()
      reads this, manager, Repr
      ensures r == |submitted| + 1
      ensures submitted != [] ==> r == submitted[|submitted| - 1]
      ensures manager.completedFenceCounter <= r
    {
      currentFenceCounter
    }

    /** The manager's completed counter: the largest complete counter, never
      * above the current counter, and every submission tagged with a counter
      * up to it has run on the worker. */
    function GetCompletedFenceCounter(): (r: nat)
      requires Valid()
      reads this, manager, Repr
      ensures manager.IsFenceCounterComplete(r) && !manager.IsFenceCounterComplete(r + 1)
      ensures r <= GetCurrentFenceCounter()
      ensures forall c :: 2 <= c <= r ==> c in SubmitCounters(executed)
    {
      manager.GetCompletedFenceCounter()
    }

    /** Forwards the manager's last present result. */
    function GetLastPresentResult(): (r: int)
      reads this, manager
      ensures r == manager.lastPresentResult
    {
      manager.GetLastPresentResult()
    }

    /** AcquireNewChunk: pop the most recently returned reserve chunk, or
      * allocate a new one when the reserve is empty. */
    method AcquireNewChunk()
      requires forall c :: c in chunkReserve ==> c.Valid() && c.nodes == []
      modifies this`chunk, this`chunkReserve, this`Repr
      ensures chunk.Valid() && chunk.nodes == []
      ensures old(chunkReserve) == [] ==> fresh(chunk) && chunkReserve == [] && Repr == old(Repr) + {chunk}
      ensures old(chunkReserve) != [] ==>
                && chunk == old(chunkReserve)[|old(chunkReserve)| - 1]
                && chunkReserve == old(chunkReserve)[.. |old(chunkReserve)| - 1]
                && Repr == old(Repr)
    {
      if chunkReserve == [] {
        chunk := new CommandChunk();
        Repr := Repr + {chunk};
        return;
      }
      chunk := chunkReserve[|chunkReserve| - 1];
      chunkReserve := chunkReserve[.. |chunkReserve| - 1];
    }

    /** Flush: an empty chunk stays where it is; a non-empty one goes to the
      * back of the work queue and a replacement chunk is acquired. */
    method Flush()
      requires Valid()
      modifies this`workerIdle, this`workQueue, this`queuedCommands, this`chunk, this`chunkReserve, this`Repr
      ensures Valid() && fresh(Repr - old(Repr))
      ensures chunk.commands == []
      ensures old(chunk.nodes) == [] ==>
                chunk == old(chunk) && workQueue == old(workQueue) &&
                chunkReserve == old(chunkReserve) && workerIdle == old(workerIdle)
      ensures old(chunk.nodes) != [] ==>
                && workQueue == old(workQueue) + [old(chunk)]
                && !workerIdle
                && (old(chunkReserve) == [] ==> fresh(chunk) && chunkReserve == [])
                && (old(chunkReserve) != [] ==>
                      chunk == old(chunkReserve)[|old(chunkReserve)| - 1] &&
                      chunkReserve == old(chunkReserve)[.. |old(chunkReserve)| - 1])
    {
      if chunk.Empty() {
        return;
      }
      QueueCurrentChunk();
    }

    /** The non-empty case of Flush: under the work lock the worker is marked
      * busy and the current chunk is pushed on the work queue; then
      * AcquireNewChunk supplies the replacement. */
    method QueueCurrentChunk()
      requires Valid() && chunk.nodes != []
      modifies this`workerIdle, this`workQueue, this`queuedCommands, this`chunk, this`chunkReserve, this`Repr
      ensures Valid() && fresh(Repr - old(Repr))
      ensures chunk.commands == [] && !workerIdle
      ensures workQueue == old(workQueue) + [old(chunk)]
      ensures old(chunkReserve) == [] ==> fresh(chunk) && chunkReserve == []
      ensures old(chunkReserve) != [] ==>
                chunk == old(chunkReserve)[|old(chunkReserve)| - 1] &&
                chunkReserve == old(chunkReserve)[.. |old(chunkReserve)| - 1]
    {
      var full := chunk;
      workerIdle, queuedCommands, workQueue := false, queuedCommands + [full.commands], workQueue + [full];
      AcquireNewChunk();
      QueueKeepsValid(this);
    }

    /** One turn of the worker loop: with nothing queued it goes idle;
      * otherwise it runs the front chunk. */
    method WorkerStep() returns (ran: bool)
      requires Valid()
      modifies this`workQueue, this`queuedCommands, this`executed, this`chunkReserve, this`workerIdle
      modifies if workQueue == [] then {} else {workQueue[0]}
      ensures Valid() && Repr == old(Repr)
      ensures ran <==> old(workQueue) != []
      ensures !ran ==> workerIdle && executed == old(executed) &&
                       workQueue == old(workQueue) && chunkReserve == old(chunkReserve)
      ensures ran ==>
                && executed == old(executed) + old(workQueue[0].commands)
                && workQueue == old(workQueue[1..])
                && chunkReserve == old(chunkReserve) + [old(workQueue[0])]
    {
      if workQueue == [] {
        workerIdle := true;
        return false;
      }
      RunFrontChunk();
      ran := true;
    }

    /** The worker takes the front chunk off the queue, runs every command in
      * it, returns the chunk to the reserve and goes idle if the queue is now
      * empty. */
    method RunFrontChunk()
      requires Valid() && workQueue != []
      modifies this`workQueue, this`queuedCommands, this`executed, this`chunkReserve, this`workerIdle
      modifies workQueue[0]
      ensures Valid() && Repr == old(Repr)
      ensures executed == old(executed) + old(workQueue[0].commands)
      ensures workQueue == old(workQueue[1..])
      ensures chunkReserve == old(chunkReserve) + [old(workQueue[0])]
    {
      var work, rest := workQueue[0], workQueue[1..];
      var commands := work.ExecuteAll();
      workQueue, queuedCommands := rest, queuedCommands[1..];
      executed, chunkReserve := executed + commands, chunkReserve + [work];
      if workQueue == [] {
        workerIdle := true;
      }
      DequeueKeepsValid(this);
    }

    /** Record into the current chunk only: the command goes in exactly when
      * it fits after the current write offset. */
    method TryRecord(c: Command) returns (ok: bool)
      requires Valid() && WellFormed(c) && Issued(c)
      modifies this`recorded, chunk
      ensures Valid()
      ensures ok <==> Fits(c, old(chunk.commandOffset))
      ensures recorded == old(recorded) + (if ok then [c] else [])
      ensures chunk.commands == old(chunk.commands) + (if ok then [c] else [])
      ensures !ok ==> chunk.nodes != []
    {
      RecordKeepsOrder(executed, queuedCommands, chunk.commands, recorded, c);
      EmptyChunkFitsEveryCommand(c);
      ok := chunk.Record(c);
      if ok {
        SubmitCountersSnoc(recorded, c);
        recorded := recorded + [c];
      }
    }

    /** Record: try the current chunk; if the command does not fit, flush and
      * record it into the replacement chunk, where it always fits. A submit
      * command's type is private to SubmitCommandBuffer, so callers only
      * record other commands; SubmitCommandBuffer uses RecordSubmit. */
    method Record(c: Command)
      requires Valid() && WellFormed(c) && !c.payload.SubmitCommandBuffer?
      modifies this`recorded, this`workerIdle, this`workQueue, this`queuedCommands, this`chunk, this`chunkReserve
      modifies this`Repr, Repr
      ensures Valid() && fresh(Repr - old(Repr))
      ensures recorded == old(recorded) + [c]
      ensures Fits(c, old(chunk.commandOffset)) ==>
                && chunk == old(chunk) && chunk.commands == old(chunk.commands) + [c]
                && workQueue == old(workQueue) && queuedCommands == old(queuedCommands)
                && chunkReserve == old(chunkReserve) && workerIdle == old(workerIdle)
      ensures !Fits(c, old(chunk.commandOffset)) ==>
                workQueue == old(workQueue) + [old(chunk)] && chunk.commands == [c]
    {
      var ok := TryRecord(c);
      if !ok {
        RecordAfterFlush(c);
      }
    }

    /** Record, as SubmitCommandBuffer calls it for its submit command, which
      * carries the counter just handed out. */
    method RecordSubmit(c: Command)
      requires Valid() && WellFormed(c) && Issued(c)
      modifies this`recorded, this`workerIdle, this`workQueue, this`queuedCommands, this`chunk, this`chunkReserve
      modifies this`Repr, Repr
      ensures Valid() && fresh(Repr - old(Repr))
      ensures recorded == old(recorded) + [c]
    {
      var ok := TryRecord(c);
      if !ok {
        RecordAfterFlush(c);
      }
    }

    /** The second half of Record: a command that did not fit is recorded
      * into the chunk that replaces the flushed one. */
    method RecordAfterFlush(c: Command)
      requires Valid() && WellFormed(c) && Issued(c) && chunk.nodes != []
      modifies this`recorded, this`workerIdle, this`workQueue, this`queuedCommands, this`chunk, this`chunkReserve
      modifies this`Repr, Repr
      ensures Valid() && fresh(Repr - old(Repr))
      ensures recorded == old(recorded) + [c]
      ensures workQueue == old(workQueue) + [old(chunk)] && chunk.commands == [c]
    {
      Flush();
      EmptyChunkFitsEveryCommand(c);
      var ok := TryRecord(c);
      assert ok;
    }

    /** SyncWorker: flush, then let the worker run until it is idle. Afterwards
      * every recorded command has run, exactly once, in recording order. */
    method SyncWorker()
      requires Valid()
      modifies this`workerIdle, this`workQueue, this`queuedCommands, this`chunk, this`chunkReserve, this`executed
      modifies this`Repr, Repr
      ensures Valid() && fresh(Repr - old(Repr))
      ensures executed == recorded
      ensures workerIdle && workQueue == [] && chunk.commands == []
    {
      Flush();
      DrainWorkQueue();
    }

    /** The wait half of SyncWorker: the worker runs chunks until it is idle. */
    method DrainWorkQueue()
      requires Valid() && chunk.commands == []
      modifies this`workerIdle, this`workQueue, this`queuedCommands, this`chunkReserve, this`executed
      modifies Repr
      ensures Valid() && Repr == old(Repr)
      ensures executed == recorded
      ensures workerIdle && workQueue == [] && chunk.commands == []
    {
      while !workerIdle
        invariant Valid() && Repr == old(Repr) && chunk.commands == []
        decreases |workQueue|
      {
        var _ := WorkerStep();
      }
      assert Flatten([]) == [];
    }

    /** WaitForFenceCounter: return at once when the counter has completed;
      * otherwise make sure the worker has issued everything first. */
    method WaitForFenceCounter(counter: nat)
      requires Valid()
      modifies this`workerIdle, this`workQueue, this`queuedCommands, this`chunk, this`chunkReserve, this`executed
      modifies this`Repr, Repr
      ensures Valid() && fresh(Repr - old(Repr))
      ensures old(manager.completedFenceCounter) >= counter ==>
                chunk == old(chunk) && workQueue == old(workQueue) && chunkReserve == old(chunkReserve) &&
                executed == old(executed) && workerIdle == old(workerIdle)
      ensures old(manager.completedFenceCounter) < counter ==>
                workerIdle && workQueue == [] && executed == recorded
    {
      if manager.completedFenceCounter >= counter {
        return;
      }
      SyncWorker();
    }

    /** The atomic pre-increment of m_current_fence_counter: the counter
      * handed out is the new value. */
    method IncrementFenceCounter() returns (fenceCounter: nat)
      requires Valid()
      modifies this`currentFenceCounter, this`submitted
      ensures Valid()
      ensures fenceCounter == old(currentFenceCounter) + 1 && currentFenceCounter == fenceCounter
      ensures submitted == old(submitted) + [fenceCounter]
    {
      currentFenceCounter := currentFenceCounter + 1;
      fenceCounter := currentFenceCounter;
      submitted := submitted + [fenceCounter];
    }

    /** SubmitCommandBuffer: take the next fence counter, record the submit
      * command carrying it, then wait for it or flush. */
    method SubmitCommandBuffer(submitOnWorkerThread: bool, waitForCompletion: bool,
                               presentSwapChain: Handle, presentImageIndex: u32)
      returns (fenceCounter: nat)
      requires Valid()
      modifies this`currentFenceCounter, this`submitted, this`recorded, this`executed
      modifies this`workerIdle, this`workQueue, this`queuedCommands, this`chunk, this`chunkReserve
      modifies this`Repr, Repr
      ensures Valid() && fresh(Repr - old(Repr))
      ensures fenceCounter == old(currentFenceCounter) + 1 && currentFenceCounter == fenceCounter
      ensures fenceCounter == |old(submitted)| + 2 && submitted == old(submitted) + [fenceCounter]
      ensures recorded == old(recorded) +
                [SubmitCommand(fenceCounter, submitOnWorkerThread, waitForCompletion, presentSwapChain, presentImageIndex)]
      ensures !old(manager.IsFenceCounterComplete(fenceCounter))
      ensures !waitForCompletion ==> chunk.commands == []
      ensures waitForCompletion ==> executed == recorded
    {
      ghost var before := Repr;
      fenceCounter := IncrementFenceCounter();
      RecordSubmit(SubmitCommand(fenceCounter, submitOnWorkerThread, waitForCompletion, presentSwapChain, presentImageIndex));
      ghost var recordedInto := Repr;
      AwaitSubmission(waitForCompletion, fenceCounter);
      assert fresh(Repr - recordedInto) && fresh(recordedInto - before);
      assert Repr - before <= (Repr - recordedInto) + (recordedInto - before);
    }

    /** The end of SubmitCommandBuffer: wait for the submission's fence
      * counter, or only flush so that the worker picks the submission up. */
    method AwaitSubmission(waitForCompletion: bool, fenceCounter: nat)
      requires Valid()
      modifies this`workerIdle, this`workQueue, this`queuedCommands, this`chunk, this`chunkReserve, this`executed
      modifies this`Repr, Repr
      ensures Valid() && fresh(Repr - old(Repr))
      ensures !waitForCompletion ==> chunk.commands == []
      ensures waitForCompletion && old(manager.completedFenceCounter) < fenceCounter ==> executed == recorded
    {
      if waitForCompletion {
        WaitForFenceCounter(fenceCounter);
      } else {
        Flush();
      }
    }

    /** The fence thread reports that the submissions up to `counter` have
      * finished on the GPU. A fence is only waited on once the worker has
      * submitted its command buffer, so every counter up to it belongs to a
      * submit command the worker has run. */
    method FenceSignalled(counter: nat)
      requires Valid()
      requires manager.completedFenceCounter <= counter
      requires forall c :: 2 <= c <= counter ==> c in SubmitCounters(executed)
      modifies manager`completedFenceCounter
      ensures Valid()
      ensures manager.completedFenceCounter == counter <= currentFenceCounter
      ensures forall c :: old(manager.IsFenceCounterComplete(c)) ==> manager.IsFenceCounterComplete(c)
    {
      ExecutedCountersIssued(this);
      assert counter >= 2 ==> counter in SubmitCounters(executed);
      manager.FenceSignalled(counter);
    }

    method CheckLastPresentFail() returns (failed: bool)
      modifies manager`lastPresentFailed
      ensures failed == old(manager.lastPresentFailed) && !manager.lastPresentFailed
    {
      failed := manager.CheckLastPresentFail();
    }

    method CheckLastPresentDone() returns (done: bool)
      modifies manager`lastPresentDone
      ensures done == old(manager.lastPresentDone) && !manager.lastPresentDone
    {
      done := manager.CheckLastPresentDone();
    }
  }

  /** Flush's bookkeeping keeps the scheduler's invariant: the full chunk
    * joins the back of the queue and the replacement chunk is empty. */
  twostate lemma QueueKeepsValid(s: Scheduler)
    requires old(s.Valid()) && old(s.chunk.nodes) != []
    requires unchanged(old(s.Repr))
    requires s.workQueue == old(s.workQueue) + [old(s.chunk)]
    requires s.queuedCommands == old(s.queuedCommands) + [old(s.chunk.commands)]
    requires !s.workerIdle && s.executed == old(s.executed) && s.recorded == old(s.recorded)
    requires s.currentFenceCounter == old(s.currentFenceCounter) && s.submitted == old(s.submitted)
    requires s.manager.completedFenceCounter == old(s.manager.completedFenceCounter)
    requires s.chunk.Valid() && s.chunk.nodes == []
    requires old(s.chunkReserve) == [] ==> fresh(s.chunk) && s.chunkReserve == [] && s.Repr == old(s.Repr) + {s.chunk}
    requires old(s.chunkReserve) != [] ==>
               && s.chunk == old(s.chunkReserve)[|old(s.chunkReserve)| - 1]
               && s.chunkReserve == old(s.chunkReserve)[.. |old(s.chunkReserve)| - 1]
               && s.Repr == old(s.Repr)
    ensures s.Valid()
  {
    var full := old(s.chunk);
    EnqueueKeepsOrder(old(s.executed), old(s.queuedCommands), old(full.commands), old(s.recorded));
    if old(s.chunkReserve) != [] {
      EnqueueKeepsDistinct(full, old(s.workQueue), old(s.chunkReserve));
    } else {
      EnqueueFreshKeepsDistinct(full, old(s.workQueue), s.chunk);
    }
    forall c | c in s.workQueue ensures c in s.Repr && c.Valid() && c.nodes != [] {
      assert c == full || c in old(s.workQueue);
    }
    forall c | c in s.chunkReserve ensures c in s.Repr && c.Valid() && c.nodes == [] {
      assert c in old(s.chunkReserve);
    }
  }

  /** The worker's bookkeeping keeps the scheduler's invariant: the front
    * chunk, now run and empty, moves from the queue to the reserve. */
  twostate lemma DequeueKeepsValid(s: Scheduler)
    requires old(s.Valid()) && old(s.workQueue) != []
    requires unchanged(old(s.Repr) - {old(s.workQueue[0])})
    requires old(s.workQueue[0]).Valid() && old(s.workQueue[0]).nodes == []
    requires s.workQueue == old(s.workQueue[1..]) && s.queuedCommands == old(s.queuedCommands[1..])
    requires s.chunkReserve == old(s.chunkReserve) + [old(s.workQueue[0])]
    requires s.executed == old(s.executed) + old(s.workQueue[0].commands)
    requires s.chunk == old(s.chunk) && s.Repr == old(s.Repr) && s.recorded == old(s.recorded)
    requires s.currentFenceCounter == old(s.currentFenceCounter) && s.submitted == old(s.submitted)
    requires s.manager.completedFenceCounter == old(s.manager.completedFenceCounter)
    requires s.workerIdle <==> s.workQueue == []
    ensures s.Valid()
  {
    var work := old(s.workQueue[0]);
    DequeueKeepsDistinct(old(s.chunk), old(s.workQueue), old(s.chunkReserve));
    DequeueKeepsOrder(old(s.executed), old(s.queuedCommands), old(s.chunk.commands), old(s.recorded));
    SubmitCountersAppend(old(s.executed), old(s.workQueue[0].commands));
    forall c | c in s.workQueue ensures c in s.Repr && c.Valid() && c.nodes != [] {
      assert c in old(s.workQueue) && c != work;
    }
    forall i | 0 <= i < |s.workQueue| ensures s.workQueue[i].commands == s.queuedCommands[i] {
      assert s.workQueue[i] == old(s.workQueue)[i + 1] && s.queuedCommands[i] == old(s.queuedCommands)[i + 1];
    }
    forall c | c in s.chunkReserve ensures c in s.Repr && c.Valid() && c.nodes == [] {
      assert c == work || c in old(s.chunkReserve);
    }
  }

  /** Fence counters handed out by successive submissions strictly increase. */
  lemma SubmittedCountersIncrease(s: Scheduler, i: nat, j: nat)
    requires s.Valid() && i < j < |s.submitted|
    ensures 2 <= s.submitted[i] < s.submitted[j] < s.GetCurrentFenceCounter() + 1
  {
  }

  /** The counter SubmitCommandBuffer hands out next is never complete yet:
    * work is tagged with a counter before it can finish. */
  lemma NextCounterNotComplete(s: Scheduler)
    requires s.Valid()
    ensures !s.manager.IsFenceCounterComplete(s.GetCurrentFenceCounter() + 1)
    ensures forall counter: nat :: s.manager.IsFenceCounterComplete(counter) ==> counter <= s.GetCurrentFenceCounter()
  {
  }

  /** A complete counter means finished work: for a valid scheduler, every
    * submission tagged with a counter from 2 up to a complete one has been
    * run by the worker. */
  lemma CompletedWorkHasRun(s: Scheduler, counter: nat)
    requires s.Valid() && s.manager.IsFenceCounterComplete(counter)
    ensures forall c :: 2 <= c <= counter ==> c in SubmitCounters(s.executed)
  {
  }

  /** Everything the worker has run carries only counters that were handed
    * out: what ran is a prefix of what was recorded. */
  lemma ExecutedCountersIssued(s: Scheduler)
    requires s.Valid()
    ensures forall c :: c in SubmitCounters(s.executed) ==> 2 <= c <= s.currentFenceCounter
  {
    RunCountersRecorded(s.executed, s.queuedCommands, s.chunk.commands, s.recorded);
  }
}
