# Dolphin: Vulkan command scheduling, HLE debug printing and interpreter dispatch

This project is a Dafny model of four pieces of the Dolphin GameCube/Wii
emulator, with proofs of what each promises.

- **Vulkan command scheduling** (`VKScheduler.h`, `VKScheduler.cpp`).
  - Render commands are recorded into a `CommandChunk`.
    - A chunk is a 0x8000-byte arena.
    - Each command is placed at an offset rounded up to its alignment.
    - Commands are chained in recording order on an intrusive list.
  - `Flush` moves a non-empty chunk to the back of a FIFO work queue. It replaces the chunk from a LIFO reserve, or with a newly allocated chunk.
  - A worker runs the queued chunks in order and returns them to the reserve.
  - `SubmitCommandBuffer` hands out increasing fence counters.

  The model is a `Scheduler` class whose worker thread is an explicit step method. Its invariant says three things:
  - every chunk is in exactly one place;
  - the worker is idle exactly when the queue is empty;
  - what has run, followed by what is queued, followed by the current chunk, is exactly what was recorded.
- **Command buffer manager state** (`CommandBufferManager.h`). This covers:
  - the per-submission slot records and the per-frame records, with their defaults;
  - the init-buffer "used" marking;
  - the wait-semaphore setter;
  - the two test-and-clear present flags;
  - the completed fence counter.
- **HLE debug printing** (`HLE_OS.cpp`).
  - `GetStringVA` expands a guest printf format. The model proves its loop against `Scan`, a step-by-step reading of the format, and `Render`, which turns pieces into text.
  - Lemmas state what the format language means:
    - `%%`;
    - plain text;
    - an unterminated specifier;
    - which argument each conversion letter fetches;
    - that a format never fetches more arguments than it has `%` signs.
  - The hooks are modelled as well:
    - the format-register guess of `HLE_GeneralDebugPrint`;
    - the size truncation of `__write_console`;
    - the stdout/stderr filters of `(v)dprintf` and `(v)fprintf`.
- **Interpreter dispatch** (`Interpreter.cpp`). This covers:
  - the paired-single legality rules under HID2;
  - the five-way decision of `SingleStepInner` (hook, fetch fault, illegal instruction, FPU unavailable, dispatch);
  - the `pc`/`npc`/`last_pc` update;
  - `SingleStep`;
  - the downcount loop of the fast run loop;
  - the bounds of the handler-table indices.

What lies outside these files is a parameter of the model:
- guest memory and registers;
- the instruction handlers;
- `PowerPC::CheckExceptions`;
- the HLE hook table;
- `StringFromFormat` together with the argument fetch;
- the opcode-info table.

Files:
- `common_types.dfy`: `Option`, fixed-width integers, `u32` addition.
- `align.dfy`: `AlignUp` and powers of two.
- `command_chunk.dfy`: `CommandChunk`.
- `command_buffer_manager.dfy`: `CommandBufferManager`.
- `vk_scheduler.dfy`: `Scheduler`.
- `hle_os.dfy`: the HLE printing functions.
- `interpreter.dfy`: the interpreter.

## Model

| member | source | states |
|---|---|---|
| CommonTypes.AddU32 | Source/Core/Core/HLE/HLE_OS.cpp:172-181 | The guest-address sum `gpr[3] + 0xF` (and `+ 0xE`, `+ 0x2`, `gpr[1] + 0x8`) is the true sum or the sum less 2^32: unsigned 32-bit wrap-around |
| Align.AlignUp | Source/Core/VideoBackends/Vulkan/VKScheduler.h:60 | The rounded offset is a multiple of the alignment, at least the offset, and less than offset + alignment |
| Align.AlignUpOfMultiple | Source/Core/VideoBackends/Vulkan/VKScheduler.h:60 | Rounding an offset that is already aligned leaves it unchanged |
| Align.AlignUpStaysWithin | Source/Core/VideoBackends/Vulkan/VKScheduler.h:60-61 | Rounding up never passes an aligned end of region |
| Align.PowerOfTwoDivides | Source/Core/VideoBackends/Vulkan/VKScheduler.h:32 | A smaller power-of-two alignment divides a larger power of two |
| SchedulerChunk.AlignedOffsetStaysInArena | Source/Core/VideoBackends/Vulkan/VKScheduler.h:58-61 | Every command alignment divides the 0x8000-byte arena, so the rounded offset stays inside the arena |
| SchedulerChunk.EmptyChunkFitsEveryCommand | Source/Core/VideoBackends/Vulkan/VKScheduler.h:58 | Because of the static_assert, every command fits into an empty chunk, at offset 0 |
| SchedulerChunk.CommandsOfNodes | Source/Core/VideoBackends/Vulkan/VKScheduler.h:83-84 | The chunk's command list has one entry per list node, node i holding command i |
| SchedulerChunk.Linked | Source/Core/VideoBackends/Vulkan/VKScheduler.h:65-75 | Placing a command adds one node at the end holding it, with a null `next`; earlier nodes keep their command and offset; the old last node now links to the new one |
| SchedulerChunk.LinkedCommands | Source/Core/VideoBackends/Vulkan/VKScheduler.h:65-75 | After linking, the list's commands are the old ones followed by the new command: list order is recording order |
| SchedulerChunk.LinkedValid | Source/Core/VideoBackends/Vulkan/VKScheduler.h:60-76 | An accepted command keeps the chunk's invariant: first/last are correct, nodes are aligned, chained in order and non-overlapping, all below the new offset, which stays within the arena |
| SchedulerChunk.RefusedKeepsValid | Source/Core/VideoBackends/Vulkan/VKScheduler.h:60-64 | A refused command keeps the invariant with the rounded-up offset and the list unchanged |
| SchedulerChunk.CommandChunk.constructor | Source/Core/VideoBackends/Vulkan/VKScheduler.h:83-86 | A new chunk is valid, holds no command and has offset 0 |
| SchedulerChunk.CommandChunk.Empty | Source/Core/VideoBackends/Vulkan/VKScheduler.h:80 | `Empty()`, which tests the offset for 0, holds exactly when the list has no node |
| SchedulerChunk.CommandChunk.Record | Source/Core/VideoBackends/Vulkan/VKScheduler.h:54-78 | Accepts exactly when the aligned offset leaves room for the command; the offset becomes the aligned offset plus the size on acceptance and the aligned offset on refusal; on refusal nodes, first and last are unchanged; on acceptance the command is appended as the new last, and is also first if the chunk was empty |
| SchedulerChunk.CommandChunk.Link | Source/Core/VideoBackends/Vulkan/VKScheduler.h:65-75 | The new node becomes last; it is linked after the previous last, or becomes first when there was none |
| SchedulerChunk.CommandChunk.ExecuteAll | Source/Core/VideoBackends/Vulkan/VKScheduler.cpp:34-47 | Walking from first along the links runs every recorded command exactly once, in recording order; afterwards the chunk is empty: offset 0, first and last null |
| CommandBufferManagement.MarkInitUsed | Source/Core/VideoBackends/Vulkan/CommandBufferManager.h:37-41 | Only slot i changes, and only by setting its init-buffer-used flag |
| CommandBufferManagement.CommandBufferManager.constructor | Source/Core/VideoBackends/Vulkan/CommandBufferManager.h:115-148 | Every slot and frame record has its default member values; the completed counter is 0; slot and frame indices are 0; both present flags are clear and the last present result is VK_SUCCESS |
| CommandBufferManagement.CommandBufferManager.GetCurrentInitCommandBuffer | Source/Core/VideoBackends/Vulkan/CommandBufferManager.h:37-42 | Returns the current slot's init buffer (`command_buffers[0]`) and marks that slot, and no other, as using it |
| CommandBufferManagement.CommandBufferManager.GetCurrentCommandBuffer | Source/Core/VideoBackends/Vulkan/CommandBufferManager.h:43-47 | Returns the current slot's draw buffer (`command_buffers[1]`) and changes nothing |
| CommandBufferManagement.CommandBufferManager.SetWaitSemaphoreForCurrentCommandBuffer | Source/Core/VideoBackends/Vulkan/CommandBufferManager.h:63-68 | The current slot gets the semaphore and its used flag; every other slot is unchanged |
| CommandBufferManagement.CommandBufferManager.CheckLastPresentFail | Source/Core/VideoBackends/Vulkan/CommandBufferManager.h:84 | Test-and-clear: returns the flag and leaves it clear |
| CommandBufferManagement.CommandBufferManager.CheckLastPresentDone | Source/Core/VideoBackends/Vulkan/CommandBufferManager.h:86 | Test-and-clear: returns the flag and leaves it clear |
| CommandBufferManagement.EarlierCountersComplete | Source/Core/VideoBackends/Vulkan/CommandBufferManager.h:51-59 | Completion is downward closed: if counter N is complete, so is every earlier counter |
| CommandBufferManagement.CommandBufferManager.GetCompletedFenceCounter | Source/Core/VideoBackends/Vulkan/CommandBufferManager.h:51-59 | The completed counter is the largest complete counter: work tagged with it is finished, work tagged one above it is not |
| CommandBufferManagement.CommandBufferManager.IsFenceCounterComplete | Source/Core/VideoBackends/Vulkan/CommandBufferManager.h:51-55 | Defines completion: work tagged N is finished exactly when the completed counter has reached N, so counter 0 is always complete. What a complete counter says about the work run is stated on the scheduler (`Scheduler.Valid`, `CompletedWorkHasRun`) |
| CommandBufferManagement.CommandBufferManager.FenceSignalled | Source/Core/VideoBackends/Vulkan/CommandBufferManager.h:143-181 | The fence thread stores a signalled fence's counter as the completed counter. The counter never goes back, so every counter that was complete stays complete |
| CommandBufferManagement.CommandBufferManager.GetLastPresentResult | Source/Core/VideoBackends/Vulkan/CommandBufferManager.h:85 | Reads the stored result of the last present |
| VKScheduler.SubmitCommand | Source/Core/VideoBackends/Vulkan/VKScheduler.cpp:140-146 | The submit lambda satisfies what the compiler guarantees of every recorded command (alignment, size, fits in the arena) |
| VKScheduler.FlattenAppend | Source/Core/VideoBackends/Vulkan/VKScheduler.cpp:69 | Queuing one more chunk appends its commands to the queued commands |
| VKScheduler.EnqueueKeepsOrder | Source/Core/VideoBackends/Vulkan/VKScheduler.cpp:66-72 | Moving the current chunk to the back of the queue keeps "executed, then queued, then current = recorded" |
| VKScheduler.DequeueKeepsOrder | Source/Core/VideoBackends/Vulkan/VKScheduler.cpp:95-99 | Running the front chunk moves its commands from the queue to the executed trace and keeps the order invariant |
| VKScheduler.RecordKeepsOrder | Source/Core/VideoBackends/Vulkan/VKScheduler.h:109 | Recording into the current chunk extends the recorded trace by that command and keeps the order invariant |
| VKScheduler.EnqueueKeepsDistinct | Source/Core/VideoBackends/Vulkan/VKScheduler.cpp:57-58 | Flushing with a non-empty reserve: the popped reserve chunk becomes current and every chunk stays in exactly one place |
| VKScheduler.EnqueueFreshKeepsDistinct | Source/Core/VideoBackends/Vulkan/VKScheduler.cpp:52-55 | Flushing with an empty reserve into a newly allocated chunk keeps every chunk in exactly one place |
| VKScheduler.DequeueKeepsDistinct | Source/Core/VideoBackends/Vulkan/VKScheduler.cpp:95-103 | The worker moving the front chunk to the reserve keeps every chunk in exactly one place; the front chunk is not current and is not queued twice |
| VKScheduler.Scheduler.constructor | Source/Core/VideoBackends/Vulkan/VKScheduler.cpp:11-21 | The scheduler starts valid with a new empty chunk, an empty queue and reserve, an idle worker and fence counter 1 (VKScheduler.h:148); nothing is recorded or submitted yet |
| VKScheduler.Scheduler.AcquireNewChunk | Source/Core/VideoBackends/Vulkan/VKScheduler.cpp:49-59 | With a non-empty reserve, the most recently returned chunk becomes current and the reserve shrinks by one (LIFO); otherwise a new empty chunk is allocated; either way the new chunk is empty |
| VKScheduler.Scheduler.Flush | Source/Core/VideoBackends/Vulkan/VKScheduler.cpp:61-73 | An empty chunk leaves chunk, queue, reserve and idle flag unchanged; a non-empty one goes to the back of the queue, the worker becomes busy and the replacement comes from the back of the reserve or is new; the invariant holds after |
| VKScheduler.Scheduler.QueueCurrentChunk | Source/Core/VideoBackends/Vulkan/VKScheduler.cpp:66-72 | The non-empty case of Flush, with the same effects |
| VKScheduler.Scheduler.WorkerStep | Source/Core/VideoBackends/Vulkan/VKScheduler.cpp:82-113 | With an empty queue the worker only becomes idle; otherwise the front chunk's commands are appended to the executed trace, the chunk leaves the front of the queue and joins the back of the reserve; the invariant holds after |
| VKScheduler.Scheduler.RunFrontChunk | Source/Core/VideoBackends/Vulkan/VKScheduler.cpp:95-111 | The non-empty case of the worker step, with the same effects; the worker is idle afterwards exactly when the queue is empty |
| VKScheduler.Scheduler.TryRecord | Source/Core/VideoBackends/Vulkan/VKScheduler.h:109-110 | The command is recorded exactly when it fits in the current chunk; a refusing chunk is never empty |
| VKScheduler.Scheduler.Record | Source/Core/VideoBackends/Vulkan/VKScheduler.h:101-114 | Callers record any command but a submit command, whose type is private to `SubmitCommandBuffer`. The command is never dropped: it is appended to the recorded trace. If it fits, it is appended to the current chunk's commands, and the chunk, the work queue, the queued commands, the reserve and the worker flag are unchanged; otherwise the old chunk is queued and the command is the only one in the replacement chunk |
| VKScheduler.Scheduler.RecordSubmit | Source/Core/VideoBackends/Vulkan/VKScheduler.cpp:140-146 | `SubmitCommandBuffer`'s own call of Record: a submit command carrying a counter already handed out is appended to the recorded trace, and the scheduler's invariant is kept |
| VKScheduler.Scheduler.RecordAfterFlush | Source/Core/VideoBackends/Vulkan/VKScheduler.h:112-113 | After the flush, the command goes into the replacement chunk, which then holds only it |
| VKScheduler.Scheduler.SyncWorker | Source/Core/VideoBackends/Vulkan/VKScheduler.cpp:75-80 | On return every recorded command has run exactly once, in recording order; the worker is idle, the queue empty and the current chunk empty |
| VKScheduler.Scheduler.DrainWorkQueue | Source/Core/VideoBackends/Vulkan/VKScheduler.cpp:78-79 | Worker steps until idle leave the queue empty and the executed trace equal to the recorded one |
| VKScheduler.Scheduler.WaitForFenceCounter | Source/Core/VideoBackends/Vulkan/VKScheduler.cpp:127-134 | Fast path: an already completed counter changes nothing. Otherwise the worker is synchronised, so everything recorded has run |
| VKScheduler.Scheduler.IncrementFenceCounter | Source/Core/VideoBackends/Vulkan/VKScheduler.cpp:139 | Pre-increment: the counter handed out is the new current counter, one above the old one, and is logged as submitted |
| VKScheduler.Scheduler.SubmitCommandBuffer | Source/Core/VideoBackends/Vulkan/VKScheduler.cpp:136-152 | The n-th submission gets counter n + 2, one above the previous current counter, and that counter was not complete before the call; the submit command carrying it and the captured arguments is appended to the recorded trace; without waiting, the current chunk is flushed empty; with waiting, everything recorded has run |
| VKScheduler.Scheduler.AwaitSubmission | Source/Core/VideoBackends/Vulkan/VKScheduler.cpp:148-151 | Flushing leaves the current chunk empty; waiting on an incomplete counter runs everything recorded |
| VKScheduler.Scheduler.CheckLastPresentFail | Source/Core/VideoBackends/Vulkan/VKScheduler.h:129 | Forwards the manager's test-and-clear |
| VKScheduler.Scheduler.CheckLastPresentDone | Source/Core/VideoBackends/Vulkan/VKScheduler.h:131 | Forwards the manager's test-and-clear |
| VKScheduler.QueueKeepsValid | Source/Core/VideoBackends/Vulkan/VKScheduler.cpp:66-72 | The state change of a non-empty Flush preserves the scheduler invariant |
| VKScheduler.DequeueKeepsValid | Source/Core/VideoBackends/Vulkan/VKScheduler.cpp:95-111 | The state change of a worker step preserves the scheduler invariant |
| VKScheduler.SubmittedCountersIncrease | Source/Core/VideoBackends/Vulkan/VKScheduler.cpp:139 | Counters of successive submissions strictly increase, start at 2 and never pass the current counter |
| VKScheduler.NextCounterNotComplete | Source/Core/VideoBackends/Vulkan/VKScheduler.cpp:139 | In every valid state, including after `FenceSignalled` has advanced the completed counter, the counter the next submission is handed is not complete yet, and no complete counter is above the current one |
| VKScheduler.SubmitCountersAppend | Source/Core/VideoBackends/Vulkan/VKScheduler.cpp:139-146 | Running more commands adds exactly the fence counters their submit commands carry to those of the commands run before |
| VKScheduler.Scheduler.FenceSignalled | Source/Core/VideoBackends/Vulkan/CommandBufferManager.h:51-54 | The completed counter advances to a counter whose submissions have all run on the worker. That the new counter is not above the current one is derived, not assumed. The scheduler's invariant is kept, and every counter complete before stays complete |
| VKScheduler.SubmitCountersSnoc | Source/Core/VideoBackends/Vulkan/VKScheduler.cpp:140-146 | Recording one more command adds exactly the counter it carries to the recorded counters |
| VKScheduler.RunCountersRecorded | Source/Core/VideoBackends/Vulkan/VKScheduler.cpp:136-152 | While the run, queued and current commands make up the recorded trace in order, every counter carried by a command that has run was carried by a recorded one |
| VKScheduler.ExecutedCountersIssued | Source/Core/VideoBackends/Vulkan/VKScheduler.cpp:136-152 | In a valid scheduler, every counter carried by a command the worker has run was handed out by `SubmitCommandBuffer`: it lies between 2 and the current counter |
| VKScheduler.CompletedWorkHasRun | Source/Core/VideoBackends/Vulkan/CommandBufferManager.h:51-54 | A complete counter means finished work: every submit command tagged with a counter from 2 up to it has been run by the worker |
| VKScheduler.Scheduler.GetCurrentFenceCounter | Source/Core/VideoBackends/Vulkan/VKScheduler.h:121-124 | The current counter is that of the last submission (1 before any) and is never below the completed counter |
| VKScheduler.Scheduler.GetCompletedFenceCounter | Source/Core/VideoBackends/Vulkan/VKScheduler.h:116-119 | The result is the largest complete counter and never above the current counter. Every submit command tagged with a counter from 2 up to it has been run by the worker |
| VKScheduler.Scheduler.GetLastPresentResult | Source/Core/VideoBackends/Vulkan/VKScheduler.h:130 | Forwards the manager's last present result |
| HLEOS.FlagRun | Source/Core/Core/HLE/HLE_OS.cpp:230-234 | The flag run is the longest prefix of flag characters: everything before it is a flag character, and the character after it is not |
| HLEOS.FlagRunIs | Source/Core/Core/HLE/HLE_OS.cpp:230-234 | Any prefix of flag characters followed by a non-flag character, or by the end of the string, is the flag run |
| HLEOS.ScanStep | Source/Core/Core/HLE/HLE_OS.cpp:218-238 | Every step that emits consumes at least one character and no more than remain, so the scan always advances |
| HLEOS.Scan | Source/Core/Core/HLE/HLE_OS.cpp:218-280 | Reading a format yields no more pieces than it has characters |
| HLEOS.Conversion | Source/Core/Core/HLE/HLE_OS.cpp:240-274 | A conversion letter yields one piece, except 'n', which yields none |
| HLEOS.ExpandNext | Source/Core/Core/HLE/HLE_OS.cpp:218-279 | One pass of the loop prints one scan step and fetches that step's arguments, advancing past it; a specifier cut off by the end of the format ends the scan |
| HLEOS.Literals | Source/Core/Core/HLE/HLE_OS.cpp:276-279 | Text copied character by character: one literal piece per character, in order |
| HLEOS.ArgsOfAppend | Source/Core/Core/HLE/HLE_OS.cpp:240-274 | The arguments fetched by two runs of pieces are those of the first followed by those of the second |
| HLEOS.RenderAppend | Source/Core/Core/HLE/HLE_OS.cpp:218-280 | The output splits at any point; the second part continues fetching arguments where the first stopped |
| HLEOS.SpecifierStep | Source/Core/Core/HLE/HLE_OS.cpp:230-238 | After '%' and the flag run, the specifier ends the scan at the end of the string, or ends at the conversion letter |
| HLEOS.ScanPlainText | Source/Core/Core/HLE/HLE_OS.cpp:276-279 | Text without '%' is read as that many literal characters, and the scan continues after it |
| HLEOS.RenderLiterals | Source/Core/Core/HLE/HLE_OS.cpp:276-279 | Literal pieces print as exactly their characters |
| HLEOS.LiteralsFetchNothing | Source/Core/Core/HLE/HLE_OS.cpp:276-279 | Literal pieces fetch no argument |
| HLEOS.PlainFormatIsCopied | Source/Core/Core/HLE/HLE_OS.cpp:276-279 | A format without '%' prints as itself and fetches no argument |
| HLEOS.EscapedPercent | Source/Core/Core/HLE/HLE_OS.cpp:224-228 | `%%` prints a single '%', fetches nothing, and the scan goes on after it |
| HLEOS.UnterminatedSpecifier | Source/Core/Core/HLE/HLE_OS.cpp:235-236 | A specifier cut off by the end of the string ends the scan; only the text before it is printed |
| HLEOS.ConversionArguments | Source/Core/Core/HLE/HLE_OS.cpp:240-274 | Per conversion letter: 's' fetches a string pointer, a/A/e/E/f/F/g/G a double, 'p' a u32 printed with "%x" whatever the flags, 'n' nothing and prints nothing; any other letter fetches a u64 after "ll" and a u32 otherwise; exactly one argument unless 'n' |
| HLEOS.Specifier | Source/Core/Core/HLE/HLE_OS.cpp:230-274 | A complete specifier contributes what its conversion letter says, and the scan continues right after the letter |
| HLEOS.StepArguments | Source/Core/Core/HLE/HLE_OS.cpp:218-274 | One step fetches no more arguments than the '%' signs it consumes |
| HLEOS.ArgumentsAtMostPercents | Source/Core/Core/HLE/HLE_OS.cpp:218-280 | A format never fetches more arguments than it has '%' signs |
| HLEOS.CharAt | Source/Core/Core/HLE/HLE_OS.cpp:224 | Indexing a string at its size gives the terminating NUL; elsewhere it gives the character |
| HLEOS.FormatConversion | Source/Core/Core/HLE/HLE_OS.cpp:238-274 | The switch prints and fetches exactly what the conversion specification says for the gathered flags and letter |
| HLEOS.GatherFlags | Source/Core/Core/HLE/HLE_OS.cpp:222-234 | The argument buffer is the '%' and every character up to the stop; all of those are flag characters, and the stopping character (if any) is not |
| HLEOS.ScanSpecifier | Source/Core/Core/HLE/HLE_OS.cpp:220-274 | A complete specifier (or `%%`) is exactly one scan step, and its text and fetches are that step's rendering; otherwise the scan stops |
| HLEOS.GetStringVA | Source/Core/Core/HLE/HLE_OS.cpp:206-283 | The result is the rendering of the scanned format with arguments read from the registers after the format string (or the va_list in the next register); the kinds fetched are exactly those of the scan |
| HLEOS.PopBackIf | Source/Core/Core/HLE/HLE_OS.cpp:88 | The result is the string or the string less its last character, and it is shorter exactly when that character was the one given |
| HLEOS.FormatRegister | Source/Core/Core/HLE/HLE_OS.cpp:59-86 | The format register is r3 plus the number of leading parameters, so between 3 and 5 |
| HLEOS.FormatRegisterChoice | Source/Core/Core/HLE/HLE_OS.cpp:59-86 | r3 exactly when gpr3 is RAM but not a pointer to a pointer or null; r5 exactly when it is one and gpr4 is not RAM; r4 in the other two cases |
| HLEOS.GeneralDebugPrint | Source/Core/Core/HLE/HLE_OS.cpp:51-92 | Logs the format in the guessed register, expanded, with one trailing newline dropped |
| HLEOS.WriteConsole | Source/Core/Core/HLE/HLE_OS.cpp:107-132 | The message is a prefix of the expansion of r4. It is cut to the size read through r5 when that pointer is RAM and the size is between 1 and the length; otherwise it is whole. Then one trailing newline is dropped |
| HLEOS.LogDPrint | Source/Core/Core/HLE/HLE_OS.cpp:135-147 | Logs exactly when the fd in r3 is 1 or 2, and then logs the expanded format in r4 less one trailing newline |
| HLEOS.ToShort | Source/Core/Core/HLE/HLE_OS.cpp:176 | `static_cast<short>`: a value in the short range that agrees with the u16 modulo 2^16 |
| HLEOS.FileDescriptor | Source/Core/Core/HLE/HLE_OS.cpp:171-182 | The fd read from a FILE is always in the range of a short |
| HLEOS.FileDescriptorChoice | Source/Core/Core/HLE/HLE_OS.cpp:171-182 | The fd is the short at FILE+0xE when FILE..FILE+0xF is RAM and that short is 1 or 2; in every other case it is the short at FILE+0x2 |
| HLEOS.LogFPrint | Source/Core/Core/HLE/HLE_OS.cpp:164-190 | Logs exactly when that fd is 1 or 2, and then logs the expanded format in r4 less one trailing newline |
| PPCInterpreter.Opcd | Source/Core/Core/PowerPC/Interpreter/Interpreter.cpp:51 | The primary opcode is below 64 |
| PPCInterpreter.Subop10 | Source/Core/Core/PowerPC/Interpreter/Interpreter.cpp:83 | The ten-bit extended opcode is below 1024 |
| PPCInterpreter.Subop5 | Source/Core/Core/PowerPC/Interpreter/Interpreter.cpp:95 | The five-bit extended opcode is below 32 |
| PPCInterpreter.TableIndex | Source/Core/Core/PowerPC/Interpreter/Interpreter.cpp:81-100 | Every instruction word indexes inside the table it is looked up in (64 entries for the primary table, 32 for table 59, 1024 for the others) |
| PPCInterpreter.IsPairedSingleQuantizedNonIndexed | Source/Core/Core/PowerPC/Interpreter/Interpreter.cpp:49-53 | True exactly for primary opcodes 56, 57, 60 and 61 (psq_l, psq_lu, psq_st, psq_stu), never for opcode 4 |
| PPCInterpreter.IsPairedSingle | Source/Core/Core/PowerPC/Interpreter/Interpreter.cpp:55-58 | True exactly for primary opcodes 4, 56, 57, 60 and 61 |
| PPCInterpreter.IsInvalidPairedSingleExecution | Source/Core/Core/PowerPC/Interpreter/Interpreter.cpp:65-72 | Only paired-single instructions can be invalid, and none is with both PSE and LSQE set |
| PPCInterpreter.InvalidPairedSingleExecution | Source/Core/Core/PowerPC/Interpreter/Interpreter.cpp:49-72 | Execution is invalid exactly when PSE is clear and the opcode is 4, 0x38, 0x39, 0x3C or 0x3D, or PSE is set, LSQE clear and the opcode is one of the last four; with both bits set, or for any other instruction, it is valid |
| PPCInterpreter.DispatchConditions | Source/Core/Core/PowerPC/Interpreter/Interpreter.cpp:147-211 | An instruction reaches its handler exactly when there is no hook, the word is non-zero, HID2 allows it, and MSR.FP is set or it uses no FPU; a zero word takes the fetch-fault path; FPU-unavailable and illegal-instruction are each characterised exactly |
| PPCInterpreter.Deliver | Source/Core/Core/PowerPC/Interpreter/Interpreter.cpp:369-373 | CheckExceptions leaves the npc, pending exceptions and MSR.FP that delivery gives, ends the block and keeps HID2 |
| PPCInterpreter.ExecuteOutcome | Source/Core/Core/PowerPC/Interpreter/Interpreter.cpp:183-187 | After a handler its exceptions join those pending; without a DSI its npc, MSR.FP, HID2 and block flag stand; with one, delivery follows and the block ends |
| PPCInterpreter.Interpreter.constructor | Source/Core/Core/PowerPC/Interpreter/Interpreter.cpp:102-106 | Init clears the end-of-block flag |
| PPCInterpreter.Interpreter.UpdatePC | Source/Core/Core/PowerPC/Interpreter/Interpreter.cpp:74-78 | last_pc becomes the old pc and pc becomes npc |
| PPCInterpreter.Interpreter.CheckExceptions | Source/Core/Core/PowerPC/Interpreter/Interpreter.cpp:369-373 | The machine state becomes what delivery leaves: npc, pending exceptions and MSR.FP from delivery, the block ended, HID2 unchanged |
| PPCInterpreter.Interpreter.Dispatch | Source/Core/Core/PowerPC/Interpreter/Interpreter.cpp:183-187 | The handler runs once, on the current MSR.FP and HID2, and its npc, exceptions, MSR.FP, HID2 and block end take effect; a pending DSI is delivered at once and ends the block |
| PPCInterpreter.Interpreter.SingleStepInner | Source/Core/Core/PowerPC/Interpreter/Interpreter.cpp:147-219 | The step's outcome is `StepOutcome` of the old pc, previous instruction and machine state, and the step (pc, instruction, cycles, block flag) is appended to the step log. Afterwards last_pc is the old pc and pc is npc. For a hook: npc is the hook's, the machine state is otherwise unchanged, and the cycles are those of the previous instruction. Otherwise npc starts at pc + 4 (mod 2^32), the fetch's exceptions (ISI) join those pending, and the cycles are the fetched instruction's. A fetch fault delivers them. An illegal paired single adds a program exception; FPU use with MSR.FP clear adds FPU-unavailable; both then deliver. An allowed instruction is dispatched on the current MSR.FP and HID2 |
| PPCInterpreter.StepOutcomeDispatch | Source/Core/Core/PowerPC/Interpreter/Interpreter.cpp:147-211 | A step dispatches, and then exactly the fetched word, if and only if there is no hook, the word is not 0, it is not an invalid paired single and MSR.FP is set or it uses no FPU. A hook leaves the state but npc unchanged and keeps the previous instruction; any other step that dispatches nothing ends the block |
| PPCInterpreter.Interpreter.ExecuteFetched | Source/Core/Core/PowerPC/Interpreter/Interpreter.cpp:174-211 | The state and the dispatch record become those the five-way decision on the fetched word gives (fetch fault, illegal, FPU unavailable, dispatch) |
| PPCInterpreter.Interpreter.SingleStep | Source/Core/Core/PowerPC/Interpreter/Interpreter.cpp:221-240 | The downcount becomes 0, last_pc is the old pc, pc ends at npc, at most one instruction is dispatched and exactly one step is appended to the step log |
| PPCInterpreter.Interpreter.RunBlock | Source/Core/Core/PowerPC/Interpreter/Interpreter.cpp:327-333 | One block clears the block flag and runs at least one step, until a step ends the block or the step budget is used. The step log grows by exactly the block's steps, whose logged cycles are the block's and sum to its cycles. Only the last step may have set the block flag |
| PPCInterpreter.Interpreter.RunSlice | Source/Core/Core/PowerPC/Interpreter/Interpreter.cpp:325-335 | The downcount falls by exactly the summed cycles of the blocks run. Every block has at least one step and starts while the downcount is still positive. The step log grows by exactly the slice's steps, and their logged cycles are the blocks' cycles, block after block. A slice that completes ends with the downcount not positive. A slice starting with a non-positive downcount runs nothing |
| PPCInterpreter.LogAppend | Source/Core/Core/PowerPC/Interpreter/Interpreter.cpp:327-333 | Logging a step keeps every earlier prefix of the log and adds its cycles at the end of the logged cycles |
| PPCInterpreter.BlockLogAppend | Source/Core/Core/PowerPC/Interpreter/Interpreter.cpp:327-333 | A step logged inside a block extends the log, appends its cycles to the block's, and leaves at most the newest step with the block flag set |
| PPCInterpreter.TotalIsSum | Source/Core/Core/PowerPC/Interpreter/Interpreter.cpp:325-335 | The cycles taken for a run of blocks are the sum of all their steps' cycles, and the steps counted are those of the blocks joined together |
| PPCInterpreter.SumAppend | Source/Core/Core/PowerPC/Interpreter/Interpreter.cpp:332-334 | Cycles summed over two runs of steps add up |
| PPCInterpreter.BlocksAppend | Source/Core/Core/PowerPC/Interpreter/Interpreter.cpp:325-335 | Appending a block adds its cycles and steps to the totals, and keeps every block starting with a positive downcount |

## Left out

- Threads, mutexes, condition variables and `Common::BlockingLoop` are not modelled. The worker thread is the explicit `WorkerStep` method, and the wait in `SyncWorker` runs worker steps until the worker is idle. Interleavings of producer and worker are not modelled.
- The `VULKAN_DISABLE_THREADING` path of `Scheduler::Record`, which runs the command at once, is not modelled.
- The bytes of the chunk arena, placement new, `TypedCommand`'s virtual `Execute` and destructor are not modelled. A command is a value with its wrapper's size and alignment. Running it appends it to the executed trace.
- The size and alignment of the submit lambda's wrapper are compiler-dependent. The model fixes them at 48 and 16 bytes.
- Vulkan and VMA calls are not modelled. This covers command buffer recording, queue submission, present, fences, descriptor pools, deferred destruction and the manager's own `SubmitCommandBuffer`, `WaitForFenceCounter` and `WaitForSubmitWorkerThreadIdle`. Their bodies are not part of this model, and handles are opaque integers.
- VKScheduler.Scheduler.WaitForFenceCounter: the completed counter advances only through `FenceSignalled`, which stands for one turn of the fence thread in CommandBufferManager.cpp (that file is not part of this model), so the wait after `SyncWorker` for the fence to signal is left out.
- CommandBufferManagement.CommandBufferManager.GetCompletedFenceCounter: the manager on its own cannot see which work has run. Its contract says only that the result is the largest complete counter. The tie from a complete counter to work the worker has run is stated on the scheduler: `Scheduler.Valid`, `Scheduler.FenceSignalled`, `Scheduler.GetCompletedFenceCounter` and `CompletedWorkHasRun`.
- CommandBufferManagement.CommandBufferManager.FenceSignalled: the fence thread's wait on `VkFence`, its pending-fence queue and its lock are not modelled. The monotonic order in which it reports counters is taken as its precondition.
- `Scheduler::Initialize`, `Shutdown`, `SynchronizeSubmissionThread` and the destructor are not modelled. They start or stop threads and Vulkan objects.
- `NUM_COMMAND_BUFFERS` and `NUM_FRAMES_IN_FLIGHT` come from `Constants.h`, which is not part of this model. They are constructor parameters.
- Fence counters are `u64` in the source. The model uses unbounded naturals, because 2^64 submissions cannot happen.
- `StringFromFormat`, the argument fetch through `VAList`/`VAListStruct`, double values and `HostGetString` for `%s` arguments are all inside the `Formatter` parameter. The model fixes what is passed to them: the source, the kinds fetched so far, the format text and the kind fetched now. Their output is opaque.
- Logging calls, their level and the `SHIFTJISToUTF8` conversion are not modelled. The source converts the whole message once, in the logging call, after any truncation and after the trailing newline has been dropped. Each printing hook instead returns `report_message` before that conversion, or none.
- `HLE_OSPanic` expands two formats and raises a panic alert. It is not modelled: the alert is UI, and the expansion is `GetStringVA`.
- Guest memory accessors (`HostIsRAMAddress`, `HostRead_U16/U32`, `Read_U32`, `HostGetString`) and the register file are parameters.
- The side effects of an HLE hook are not modelled; only the npc it leaves is. A hook of the `Start` kind runs its function and then lets the instruction execute. The model's `replacedByHook` is the result of `HandleFunctionHooking`, so such a hook counts as "not replaced", and its side effects are left out.
- Instruction handlers, `PowerPC::CheckExceptions`, `Read_Opcode`, `PPCTables::UsesFPU` and the cycle counts of `GetOpInfo` are fields of the `Environment`. The handlers see the instruction, pc, MSR.FP and HID2 and return the new npc, MSR.FP and HID2 and the exceptions raised. Delivery sees the pending exceptions, npc and MSR.FP. The fetch returns the word and the exceptions it raised. The contents of the handler tables (`InitializeInstructionTables`) are not modelled.
- PPCInterpreter.Interpreter.SingleStepInner, PPCInterpreter.Interpreter.RunSlice: the `Environment` functions do not see guest memory or the other registers, so a handler's effect on them, and how that changes later fetches, handlers and deliveries, is not modelled. Only npc, the pending exceptions, the block flag, MSR.FP and HID2 are carried from one step to the next.
- The positions of OPCD, SUBOP10 and SUBOP5 are taken from the PowerPC instruction format, because the `UGeckoInstruction` layout is not part of this model.
- The performance monitor update, `Trace` and the commented-out trace switch in `SingleStepInner` are not modelled.
- `core_timing.Advance()` and `slice_length` in `SingleStep` are not modelled.
- PPCInterpreter.Interpreter.SingleStep: states the downcount, pc and dispatch facts, not the full exception state after the extra delivery.
- PPCInterpreter.Interpreter.RunSlice: takes at most `fuel` steps, because when a block ends depends on the guest program. Which block ended with the end-of-block flag is stated per block by `RunBlock` and is not collected into the slice's contract. The outer `CPU::GetState()` loop and the debugging variant with breakpoints are not modelled.
- PPCInterpreter.Interpreter.RunSlice: the source's `int cycles` and `downcount` can overflow, and the model's unbounded integers do not.
