/** CommandBufferManager: the ring of per-submission command-buffer slots, the
  * per-frame descriptor pools, the completed fence counter and the two
  * test-and-clear present flags. */
module CommandBufferManagement {
  import opened CommonTypes

  /** VkResult VK_SUCCESS. */
  const VkSuccess: int := 0

  /** A deferred-destruction callback (a std::function<void()>), kept opaque. */
  type CleanupCallback = nat

  /** CmdBufferResources: one submission slot. The source's
    * `command_buffers[0]` is the init (upload) buffer and `[1]` the draw buffer. */
  datatype CmdBufferResources = CmdBufferResources(
    commandPool: Handle,
    initCommandBuffer: Handle,
    drawCommandBuffer: Handle,
    fence: Handle,
    semaphore: Handle,
    fenceCounter: nat,
    initCommandBufferUsed: bool,
    semaphoreUsed: bool,
    frameIndex: u32,
    cleanupResources: seq<CleanupCallback>)

  /** FrameResources: the descriptor pools of one frame in flight. */
  datatype FrameResources = FrameResources(descriptorPools: seq<Handle>, currentDescriptorPoolIndex: u32)

  /** The default member initialisers of CmdBufferResources. */
  function FreshCmdBufferResources(): CmdBufferResources
  {
    CmdBufferResources(NullHandle, NullHandle, NullHandle, NullHandle, NullHandle, 0, false, false, 0, [])
  }

  /** The default member initialisers of FrameResources. */
  function FreshFrameResources(): FrameResources
  {
    FrameResources([], 0)
  }

  /** Slot `i` marked as having recorded init work. */
  function MarkInitUsed(slots: seq<CmdBufferResources>, i: nat): (r: seq<CmdBufferResources>)
    requires i < |slots|
    ensures |r| == |slots| && r[i].initCommandBufferUsed
    ensures r[i] == slots[i].(initCommandBufferUsed := true)
    ensures forall j :: 0 <= j < |slots| && j != i ==> r[j] == slots[j]
  {
    slots[i := slots[i].(initCommandBufferUsed := true)]
  }

  class CommandBufferManager {
    /** m_completed_fence_counter: the highest counter known to be finished. */
    var completedFenceCounter: nat
    /** m_command_buffers (NUM_COMMAND_BUFFERS slots). */
    const commandBuffers: array<CmdBufferResources>
    /** m_frame_resources (NUM_FRAMES_IN_FLIGHT entries). */
    const frameResources: array<FrameResources>
    var currentFrame: nat
    var currentCmdBuffer: nat
    /** Common::Flag m_last_present_failed / m_last_present_done. */
    var lastPresentFailed: bool
    var lastPresentDone: bool
    /** m_last_present_result, a VkResult. */
    var lastPresentResult: int

    ghost predicate Valid()
      reads this
    {
      currentCmdBuffer < commandBuffers.Length && currentFrame < frameResources.Length
    }

    /** The two counts come from Constants.h, which is not part of this model;
      * they are parameters here. */
    constructor (numCommandBuffers: nat, numFramesInFlight: nat)
      requires numCommandBuffers > 0 && numFramesInFlight > 0
      ensures Valid() && fresh(commandBuffers) && fresh(frameResources)
      ensures commandBuffers.Length == numCommandBuffers && frameResources.Length == numFramesInFlight
      ensures forall i :: 0 <= i < commandBuffers.Length ==> commandBuffers[i] == FreshCmdBufferResources()
      ensures forall i :: 0 <= i < frameResources.Length ==> frameResources[i] == FreshFrameResources()
      ensures completedFenceCounter == 0 && currentFrame == 0 && currentCmdBuffer == 0
      ensures !lastPresentFailed && !lastPresentDone && lastPresentResult == VkSuccess
    {
      completedFenceCounter := 0;
      commandBuffers := new CmdBufferResources[numCommandBuffers](_ => FreshCmdBufferResources());
      frameResources := new FrameResources[numFramesInFlight](_ => FreshFrameResources());
      currentFrame, currentCmdBuffer := 0, 0;
      lastPresentFailed, lastPresentDone := false, false;
      lastPresentResult := VkSuccess;
    }

    /** The init buffer is only submitted if something was recorded into it:
      * handing it out marks the current slot as having init work. */
    method GetCurrentInitCommandBuffer() returns (buffer: Handle)
      requires Valid()
      modifies commandBuffers
      ensures buffer == old(commandBuffers[currentCmdBuffer]).initCommandBuffer
      ensures commandBuffers[..] == MarkInitUsed(old(commandBuffers[..]), currentCmdBuffer)
    {
      var resources := commandBuffers[currentCmdBuffer];
      commandBuffers[currentCmdBuffer] := resources.(initCommandBufferUsed := true);
      buffer := resources.initCommandBuffer;
    }

    /** The current slot's draw buffer; nothing is modified. */
    method GetCurrentCommandBuffer() returns (buffer: Handle)
      requires Valid()
      ensures buffer == commandBuffers[currentCmdBuffer].drawCommandBuffer
    {
      var resources := commandBuffers[currentCmdBuffer];
      buffer := resources.drawCommandBuffer;
    }

    /** Records the semaphore the current slot's submission must wait on. */
    method SetWaitSemaphoreForCurrentCommandBuffer(semaphore: Handle)
      requires Valid()
      modifies commandBuffers
      ensures commandBuffers[currentCmdBuffer] ==
                old(commandBuffers[currentCmdBuffer]).(semaphoreUsed := true, semaphore := semaphore)
      ensures forall i :: 0 <= i < commandBuffers.Length && i != currentCmdBuffer ==>
                commandBuffers[i] == old(commandBuffers[i])
    {
      var resources := commandBuffers[currentCmdBuffer];
      commandBuffers[currentCmdBuffer] := resources.(semaphoreUsed := true, semaphore := semaphore);
    }

    /** The largest complete counter: work tagged with it is finished, and
      * work tagged one above it is not. */
    function GetCompletedFenceCounter(): (r: nat)
      reads this
      ensures IsFenceCounterComplete(r) && !IsFenceCounterComplete(r + 1)
    {
      completedFenceCounter
    }

    /** One turn of the fence thread: the fence at the front of the pending
      * fences has signalled, and its counter becomes the completed counter.
      * Pending fences are taken in the order they were queued, with
      * increasing counters, so the completed counter never goes back and
      * whatever was complete stays complete. */
    method FenceSignalled(counter: nat)
      requires completedFenceCounter <= counter
      modifies this`completedFenceCounter
      ensures completedFenceCounter == counter
      ensures GetCompletedFenceCounter() == counter
      ensures forall earlier: nat :: old(IsFenceCounterComplete(earlier)) ==> IsFenceCounterComplete(earlier)
    {
      completedFenceCounter := counter;
    }

    /** The result of the last present, as the presenting thread stored it. */
    function GetLastPresentResult(): (r: int)
      reads this
      ensures r == lastPresentResult
    {
      lastPresentResult
    }

    /** Work tagged with `counter` is finished exactly when the completed
      * counter has reached it; counter 0 tags no work and is always
      * complete. */
    function IsFenceCounterComplete(counter: nat): (r: bool)
      reads this
      ensures r <==> counter <= completedFenceCounter
      ensures counter == 0 ==> r
    {
      completedFenceCounter >= counter
    }

    /** Test-and-clear: reports whether the last present failed, and forgets it. */
    method CheckLastPresentFail() returns (failed: bool)
      modifies this`lastPresentFailed
      ensures failed == old(lastPresentFailed) && !lastPresentFailed
    {
      failed := lastPresentFailed;
      lastPresentFailed := false;
    }

    /** Test-and-clear: reports whether a present completed, and forgets it. */
    method CheckLastPresentDone() returns (done: bool)
      modifies this`lastPresentDone
      ensures done == old(lastPresentDone) && !lastPresentDone
    {
      done := lastPresentDone;
      lastPresentDone := false;
    }
  }

  /** Completion is downward closed: when the work tagged N is complete, so is
    * all work tagged with an earlier counter. */
  lemma EarlierCountersComplete(m: CommandBufferManager, counter: nat, earlier: nat)
    requires m.IsFenceCounterComplete(counter) && earlier <= counter
    ensures m.IsFenceCounterComplete(earlier)
  {
  }
}
