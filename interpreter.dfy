/** The decode and dispatch logic of the PowerPC interpreter
  * (Core/PowerPC/Interpreter/Interpreter.cpp): instruction fields and the
  * handler-table indices they give, the paired-single legality rules, the
  * branch structure of SingleStepInner, the pc/npc/last_pc update, the
  * single-step entry point and the downcount loop of the fast run loop.
  *
  * What lies outside the file is the `Environment`: whether an HLE hook
  * replaces the function at an address (and the npc it leaves), instruction
  * fetch, the opcode-info table (FPU use, cycle counts), the effect of an
  * instruction handler and PowerPC::CheckExceptions. */
module PPCInterpreter {
  import opened CommonTypes

  // ---------------------------------------------------------------------
  // Instruction fields and handler tables
  // ---------------------------------------------------------------------

  /** Primary opcode: bits 0-5 of the big-endian instruction word. */
  function Opcd(inst: u32): (r: nat)
    ensures r < 64
  {
    inst / 0x400_0000
  }

  /** Extended opcode, ten bits wide, just above the record bit. */
  function Subop10(inst: u32): (r: nat)
    ensures r < 1024
  {
    (inst / 2) % 1024
  }

  /** Extended opcode, five bits wide, just above the record bit. */
  function Subop5(inst: u32): (r: nat)
    ensures r < 32
  {
    (inst / 2) % 32
  }

  /** The handler tables: m_op_table and the extended-opcode tables for
    * primary opcodes 4, 19, 31, 59 and 63. */
  datatype Table = Primary | Table4 | Table19 | Table31 | Table59 | Table63

  function TableSize(t: Table): nat
  {
    match t
    case Primary => 64
    case Table4 => 1024
    case Table19 => 1024
    case Table31 => 1024
    case Table59 => 32
    case Table63 => 1024
  }

  /** The entry RunTable* (or SingleStepInner for the primary table) looks
    * up: every instruction word indexes inside the table. */
  function TableIndex(t: Table, inst: u32): (r: nat)
    ensures r < TableSize(t)
  {
    match t
    case Primary => Opcd(inst)
    case Table59 => Subop5(inst)
    case _ => Subop10(inst)
  }

  // ---------------------------------------------------------------------
  // Paired singles
  // ---------------------------------------------------------------------

  /** The bits of HID2 the interpreter consults. */
  datatype Hid2 = Hid2(pse: bool, lsqe: bool)

  /** psq_l, psq_lu, psq_st and psq_stu: primary opcodes 56, 57, 60 and 61,
    * none of them in the opcode-4 family. */
  predicate IsPairedSingleQuantizedNonIndexed(inst: u32): (r: bool)
    ensures r <==> Opcd(inst) in {56, 57, 60, 61}
    ensures r ==> Opcd(inst) != 4
  {
    var opcode := Opcd(inst);
    opcode == 0x38 || opcode == 0x39 || opcode == 0x3C || opcode == 0x3D
  }

  /** A paired-single instruction: the opcode-4 family or one of the
    * quantized non-indexed loads and stores. */
  predicate IsPairedSingle(inst: u32): (r: bool)
    ensures r <==> Opcd(inst) in {4, 56, 57, 60, 61}
  {
    Opcd(inst) == 4 || IsPairedSingleQuantizedNonIndexed(inst)
  }

  /** Only a paired-single instruction can be forbidden, and with both PSE
    * and LSQE set none is. */
  predicate IsInvalidPairedSingleExecution(inst: u32, hid2: Hid2): (r: bool)
    ensures r ==> IsPairedSingle(inst)
    ensures hid2.pse && hid2.lsqe ==> !r
  {
    if !hid2.pse && IsPairedSingle(inst) then true
    else hid2.pse && !hid2.lsqe && IsPairedSingleQuantizedNonIndexed(inst)
  }

  /** Which instructions HID2 forbids: every paired-single instruction when
    * PSE is clear, only the quantized non-indexed loads and stores when PSE
    * is set but LSQE is not, and none when both are set. */
  lemma InvalidPairedSingleExecution(inst: u32, hid2: Hid2)
    ensures IsInvalidPairedSingleExecution(inst, hid2) <==>
              var op := Opcd(inst);
              (!hid2.pse && op in {4, 0x38, 0x39, 0x3C, 0x3D}) ||
              (hid2.pse && !hid2.lsqe && op in {0x38, 0x39, 0x3C, 0x3D})
    ensures hid2.pse && hid2.lsqe ==> !IsInvalidPairedSingleExecution(inst, hid2)
    ensures !IsPairedSingle(inst) ==> !IsInvalidPairedSingleExecution(inst, hid2)
  {
  }

  // ---------------------------------------------------------------------
  // SingleStepInner's decision
  // ---------------------------------------------------------------------

  /** The branch SingleStepInner takes. */
  datatype StepPath = Hooked | FetchFault | IllegalInstruction | FpuUnavailable | Executed

  function Decide(hooked: bool, inst: u32, hid2: Hid2, msrFP: bool, usesFpu: bool): StepPath
  {
    if hooked then Hooked
    else if inst == 0 then FetchFault
    else if IsInvalidPairedSingleExecution(inst, hid2) then IllegalInstruction
    else if msrFP then Executed
    else if usesFpu then FpuUnavailable
    else Executed
  }

  /** An instruction reaches its handler exactly when no hook replaced the
    * function, the fetch did not fault, HID2 allows it and either the FPU
    * is enabled or the instruction does not use it. A zero word is never
    * dispatched; an FPU instruction with MSR.FP clear raises FPU-unavailable. */
  lemma DispatchConditions(hooked: bool, inst: u32, hid2: Hid2, msrFP: bool, usesFpu: bool)
    ensures Decide(hooked, inst, hid2, msrFP, usesFpu) == Executed <==>
              !hooked && inst != 0 && !IsInvalidPairedSingleExecution(inst, hid2) && (msrFP || !usesFpu)
    ensures !hooked && inst == 0 ==> Decide(hooked, inst, hid2, msrFP, usesFpu) == FetchFault
    ensures Decide(hooked, inst, hid2, msrFP, usesFpu) == FpuUnavailable <==>
              !hooked && inst != 0 && !IsInvalidPairedSingleExecution(inst, hid2) && !msrFP && usesFpu
    ensures Decide(hooked, inst, hid2, msrFP, usesFpu) == IllegalInstruction <==>
              !hooked && inst != 0 && IsInvalidPairedSingleExecution(inst, hid2)
  {
  }

  // ---------------------------------------------------------------------
  // The interpreter state
  // ---------------------------------------------------------------------

  /** The exceptions the model distinguishes; Isi is the one a failed
    * instruction fetch raises. */
  datatype Exception = Isi | Dsi | FpuUnavailableException | Program | External | Decrementer

  /** The part of the machine state the branches of SingleStepInner read or
    * that the handlers and CheckExceptions change: npc, the pending
    * exceptions, the block flag, MSR.FP and HID2. */
  datatype Machine = Machine(npc: u32, exceptions: set<Exception>, endBlock: bool, msrFP: bool, hid2: Hid2)

  /** What an instruction fetch gave: the word (zero when it failed) and the
    * exceptions it raised. */
  datatype Fetch = Fetch(inst: u32, raised: set<Exception>)

  /** What an instruction handler did: the npc it left (branches change it),
    * the exceptions it raised (a DSI from a failed load or store, say),
    * whether it ended the block, and MSR.FP and HID2 as it left them
    * (mtmsr, rfi and mtspr write them). */
  datatype Execution = Execution(npc: u32, raised: set<Exception>, endsBlock: bool, msrFP: bool, hid2: Hid2)

  /** What PowerPC::CheckExceptions did: the npc it left, the exceptions
    * still pending and MSR.FP as it left it (taking an exception clears
    * MSR bits). */
  datatype Delivery = Delivery(npc: u32, pending: set<Exception>, msrFP: bool)

  datatype Environment = Environment(
    replacedByHook: u32 -> bool,
    hookNpc: u32 -> u32,
    fetch: u32 -> Fetch,
    usesFpu: u32 -> bool,
    numCycles: u32 -> nat,
    execute: (u32, u32, bool, Hid2) -> Execution,  // (instruction, pc, MSR.FP, HID2)
    deliver: (set<Exception>, u32, bool) -> Delivery)  // (pending, npc, MSR.FP)

  /** Interpreter::CheckExceptions on machine state `m`: the pending
    * exceptions are delivered with npc as the return address, and the block
    * ends. */
  function Deliver(env: Environment, m: Machine): (r: Machine)
    ensures r.endBlock && r.hid2 == m.hid2
    ensures var d := env.deliver(m.exceptions, m.npc, m.msrFP);
      r.npc == d.npc && r.exceptions == d.pending && r.msrFP == d.msrFP
  {
    var d := env.deliver(m.exceptions, m.npc, m.msrFP);
    m.(npc := d.npc, exceptions := d.pending, msrFP := d.msrFP, endBlock := true)
  }

  /** The handler of `inst` run at `pc` on machine state `m`, followed by the
    * DSI check. */
  function Execute(env: Environment, inst: u32, pc: u32, m: Machine): Machine
  {
    var e := env.execute(inst, pc, m.msrFP, m.hid2);
    var after := m.(npc := e.npc, exceptions := m.exceptions + e.raised,
                    endBlock := m.endBlock || e.endsBlock, msrFP := e.msrFP, hid2 := e.hid2);
    if Dsi in after.exceptions then Deliver(env, after) else after
  }

  /** After a handler the raised exceptions join those pending, and
    * CheckExceptions runs exactly when a DSI is among them: without one the
    * handler's npc, MSR.FP and block flag stand; with one the block ends and
    * delivery decides npc and what stays pending. HID2 is the handler's
    * either way. */
  lemma ExecuteOutcome(env: Environment, inst: u32, pc: u32, m: Machine)
    ensures var e := env.execute(inst, pc, m.msrFP, m.hid2);
      var r := Execute(env, inst, pc, m);
      && r.hid2 == e.hid2
      && (Dsi !in m.exceptions + e.raised ==>
            r == Machine(e.npc, m.exceptions + e.raised, m.endBlock || e.endsBlock, e.msrFP, e.hid2))
      && (Dsi in m.exceptions + e.raised ==>
            r.endBlock && r == Deliver(env, Machine(e.npc, m.exceptions + e.raised, true, e.msrFP, e.hid2)))
  {
  }

  /** What one call of SingleStepInner leaves: the machine state, the
    * instruction whose cycles it returns (the previous one on the hook path),
    * those cycles, and the instructions handed to a handler. */
  datatype Outcome = Outcome(m: Machine, inst: u32, cycles: nat, dispatched: seq<u32>)

  /** The branches of SingleStepInner after the fetch of `inst` at `pc`,
    * on machine state `m`: the new state and the instructions handed to a
    * handler. */
  function Decoded(env: Environment, inst: u32, pc: u32, m: Machine): (Machine, seq<u32>)
  {
    match Decide(false, inst, m.hid2, m.msrFP, env.usesFpu(inst))
    case FetchFault => (Deliver(env, m), [])
    case IllegalInstruction => (Deliver(env, m.(exceptions := m.exceptions + {Program})), [])
    case FpuUnavailable => (Deliver(env, m.(exceptions := m.exceptions + {FpuUnavailableException})), [])
    case Executed => (Execute(env, inst, pc, m), [inst])
    case Hooked => (m, [])
  }

  /** SingleStepInner from pc `pc` on machine state `m`. Past a hook, npc is
    * set to the next word and the fetch's exceptions join those pending
    * before any branch is taken. */
  function StepOutcome(env: Environment, pc: u32, prevInst: u32, m: Machine): Outcome
  {
    if env.replacedByHook(pc) then
      Outcome(m.(npc := env.hookNpc(pc)), prevInst, env.numCycles(prevInst), [])
    else
      var f := env.fetch(pc);
      var r := Decoded(env, f.inst, pc, m.(npc := AddU32(pc, InstructionSize), exceptions := m.exceptions + f.raised));
      Outcome(r.0, f.inst, env.numCycles(f.inst), r.1)
  }

  /** A step hands at most the fetched instruction to its handler, and does so
    * exactly when no hook replaced the code, the fetch gave a non-zero word,
    * HID2 allows it and MSR.FP is set or it uses no FPU. A hook leaves
    * everything but npc alone; every other path that does not dispatch ends
    * the block. */
  lemma StepOutcomeDispatch(env: Environment, pc: u32, prevInst: u32, m: Machine)
    ensures var o := StepOutcome(env, pc, prevInst, m);
      var f := env.fetch(pc);
      && (o.dispatched != [] <==>
            !env.replacedByHook(pc) && f.inst != 0 && !IsInvalidPairedSingleExecution(f.inst, m.hid2) &&
            (m.msrFP || !env.usesFpu(f.inst)))
      && (o.dispatched != [] ==> o.dispatched == [f.inst])
      && (env.replacedByHook(pc) ==> o.m == m.(npc := env.hookNpc(pc)) && o.inst == prevInst)
      && (!env.replacedByHook(pc) && o.dispatched == [] ==> o.m.endBlock)
  {
    DispatchConditions(env.replacedByHook(pc), env.fetch(pc).inst, m.hid2, m.msrFP, env.usesFpu(env.fetch(pc).inst));
  }

  /** One call of SingleStepInner as the run loop sees it: the pc it ran at,
    * the instruction whose cycles it returned, those cycles, and whether the
    * block flag was set afterwards. */
  datatype Step = Step(pc: u32, inst: u32, cycles: nat, blockEnded: bool)

  /** The cycle counts of a run of steps, in order. */
  function CyclesOf(steps: seq<Step>): seq<nat>
  {
    if steps == [] then [] else CyclesOf(steps[..|steps| - 1]) + [steps[|steps| - 1].cycles]
  }

  /** Logging one more step keeps every prefix of the log and adds its
    * cycles at the end. */
  lemma LogAppend(steps: seq<Step>, step: Step, n: nat)
    requires n <= |steps|
    ensures (steps + [step])[..n] == steps[..n]
    ensures CyclesOf(steps + [step]) == CyclesOf(steps) + [step.cycles]
  {
    assert (steps + [step])[..|steps|] == steps;
  }

  /** The size of an instruction word. */
  const InstructionSize: u32 := 4

  class Interpreter {
    var pc: u32
    var npc: u32
    var lastPc: u32
    var prevInst: u32
    var downcount: int
    var endBlock: bool
    var exceptions: set<Exception>
    var msrFP: bool
    var hid2: Hid2
    /** The instructions handed to a handler, in order. */
    ghost var dispatched: seq<u32>
    /** Every call of SingleStepInner, in order. */
    ghost var log: seq<Step>
    const env: Environment

    function State(): Machine
      reads this
    {
      Machine(npc, exceptions, endBlock, msrFP, hid2)
    }

    /** Init: the block flag starts clear; the rest of the machine state is
      * given. */
    constructor (env: Environment, pc: u32, msrFP: bool, hid2: Hid2, downcount: int)
      ensures this.env == env && this.pc == pc && this.msrFP == msrFP && this.hid2 == hid2
      ensures this.downcount == downcount && !endBlock && exceptions == {} && dispatched == [] && log == []
    {
      this.env := env;
      this.pc, this.npc, this.lastPc, this.prevInst := pc, pc, 0, 0;
      this.downcount, this.msrFP, this.hid2 := downcount, msrFP, hid2;
      endBlock, exceptions, dispatched, log := false, {}, [], [];
    }

    /** UpdatePC: remember the pc and move on to npc. */
    method UpdatePC()
      modifies this`lastPc, this`pc
      ensures lastPc == old(pc) && pc == old(npc)
    {
      lastPc := pc;
      pc := npc;
    }

    /** Interpreter::CheckExceptions: deliver the pending exceptions and end
      * the block. */
    method CheckExceptions()
      modifies this`npc, this`exceptions, this`endBlock, this`msrFP
      ensures State() == Deliver(env, old(State()))
    {
      var delivery := env.deliver(exceptions, npc, msrFP);
      npc, exceptions, msrFP := delivery.npc, delivery.pending, delivery.msrFP;
      endBlock := true;
    }

    /** The handler call of the dispatch branch, followed by the DSI check. */
    method Dispatch(inst: u32)
      modifies this`npc, this`exceptions, this`endBlock, this`msrFP, this`hid2, this`dispatched
      ensures dispatched == old(dispatched) + [inst]
      ensures State() == Execute(env, inst, old(pc), old(State()))
    {
      var e := env.execute(inst, pc, msrFP, hid2);
      dispatched := dispatched + [inst];
      npc, msrFP, hid2 := e.npc, e.msrFP, e.hid2;
      exceptions := exceptions + e.raised;
      if e.endsBlock {
        endBlock := true;
      }
      if Dsi in exceptions {
        CheckExceptions();
      }
    }

    /** SingleStepInner: run one instruction (or the HLE function replacing
      * the code at pc) and return its cycle count. The fetch sets npc to the
      * next word and adds the exceptions it raised to those pending before
      * any branch is taken. The hook path returns the cycles of the
      * previously fetched instruction, not of the hooked function. */
    method SingleStepInner() returns (cycles: nat)
      modifies this`pc, this`npc, this`lastPc, this`prevInst, this`exceptions, this`endBlock
      modifies this`msrFP, this`hid2, this`dispatched, this`log
      ensures lastPc == old(pc) && pc == npc
      ensures log == old(log) + [Step(old(pc), prevInst, cycles, endBlock)]
      ensures var o := StepOutcome(env, old(pc), old(prevInst), old(State()));
        State() == o.m && prevInst == o.inst && cycles == o.cycles && dispatched == old(dispatched) + o.dispatched
    {
      if env.replacedByHook(pc) {
        npc := env.hookNpc(pc);
        log := log + [Step(pc, prevInst, env.numCycles(prevInst), endBlock)];
        UpdatePC();
        return env.numCycles(prevInst);
      }

      npc := AddU32(pc, InstructionSize);
      var fetch := env.fetch(pc);
      prevInst := fetch.inst;
      exceptions := exceptions + fetch.raised;

      ExecuteFetched(prevInst);
      cycles := env.numCycles(prevInst);
      log := log + [Step(pc, prevInst, cycles, endBlock)];
      UpdatePC();
    }

    /** The branches of SingleStepInner once `inst` has been fetched: a zero
      * word delivers the fetch fault, an instruction HID2 forbids raises a
      * program exception, an FPU instruction with MSR.FP clear raises
      * FPU-unavailable, and anything else is dispatched. */
    method ExecuteFetched(inst: u32)
      modifies this`npc, this`exceptions, this`endBlock, this`msrFP, this`hid2, this`dispatched
      ensures State() == Decoded(env, inst, pc, old(State())).0
      ensures dispatched == old(dispatched) + Decoded(env, inst, pc, old(State())).1
    {
      if inst != 0 {
        if IsInvalidPairedSingleExecution(inst, hid2) {
          exceptions := exceptions + {Program};
          CheckExceptions();
        } else if msrFP {
          Dispatch(inst);
        } else {
          if env.usesFpu(inst) {
            exceptions := exceptions + {FpuUnavailableException};
            CheckExceptions();
          } else {
            Dispatch(inst);
          }
        }
      } else {
        CheckExceptions();
      }
    }

    /** SingleStep: one instruction outside the fast loop; the downcount is
      * zeroed and any exception still pending is delivered at once, without
      * ending the block. */
    method SingleStep()
      modifies this`pc, this`npc, this`lastPc, this`prevInst, this`exceptions, this`endBlock
      modifies this`msrFP, this`hid2, this`dispatched, this`log, this`downcount
      ensures downcount == 0 && lastPc == old(pc) && pc == npc
      ensures |old(dispatched)| <= |dispatched| <= |old(dispatched)| + 1
      ensures dispatched[..|old(dispatched)|] == old(dispatched)
      ensures |log| == |old(log)| + 1 && log[..|old(log)|] == old(log)
    {
      var _ := SingleStepInner();
      downcount := 0;
      if exceptions != {} {
        var delivery := env.deliver(exceptions, npc, msrFP);
        npc, exceptions, msrFP := delivery.npc, delivery.pending, delivery.msrFP;
        pc := npc;
      }
    }

    /** One block of the fast run loop: the block flag is cleared and steps
      * run until one ends the block, or until `budget` steps are used up;
      * `cycles` is the sum of the steps' cycle counts. */
    method RunBlock(budget: nat) returns (block: seq<nat>, cycles: nat)
      requires budget > 0
      modifies this`pc, this`npc, this`lastPc, this`prevInst, this`exceptions, this`endBlock
      modifies this`msrFP, this`hid2, this`dispatched, this`log
      ensures block != [] && |block| <= budget && cycles == Sum(block)
      ensures endBlock || |block| == budget
      ensures |log| == |old(log)| + |block| && log[..|old(log)|] == old(log)
      ensures CyclesOf(log) == CyclesOf(old(log)) + block
      ensures forall k :: |old(log)| <= k < |log| - 1 ==> !log[k].blockEnded
      ensures log[|log| - 1].blockEnded == endBlock
    {
      endBlock := false;
      cycles := 0;
      block := [];
      while !endBlock && |block| < budget
        invariant |block| <= budget
        invariant cycles == Sum(block)
        invariant block == [] ==> !endBlock
        invariant |log| == |old(log)| + |block| && log[..|old(log)|] == old(log)
        invariant CyclesOf(log) == CyclesOf(old(log)) + block
        invariant forall k :: |old(log)| <= k < |log| - 1 ==> !log[k].blockEnded
        invariant block != [] ==> log[|log| - 1].blockEnded == endBlock
        decreases budget - |block|
      {
        ghost var before := log;
        var stepCycles := SingleStepInner();
        BlockLogAppend(old(log), before, block, log[|log| - 1]);
        SumAppend(block, [stepCycles]);
        block := block + [stepCycles];
        cycles := cycles + stepCycles;
      }
    }

    /** The fast run loop for one time slice: blocks of instructions run
      * until one ends the block, and each block's summed cycles are taken
      * from the downcount; the slice ends once the downcount is not
      * positive. The guest decides when blocks end, so the model takes at
      * most `fuel` steps; `completed` says the slice ended on its own.
      * `blocks` holds the cycle counts of the steps, block by block: every
      * block has at least one step and starts while the downcount is still
      * positive, though its own steps may take the downcount below zero. */
    method RunSlice(fuel: nat) returns (completed: bool, blocks: seq<seq<nat>>)
      modifies this`pc, this`npc, this`lastPc, this`prevInst, this`exceptions, this`endBlock
      modifies this`msrFP, this`hid2, this`dispatched, this`log, this`downcount
      ensures downcount == old(downcount) - Total(blocks)
      ensures forall b :: 0 <= b < |blocks| ==> blocks[b] != [] && old(downcount) - Total(blocks[..b]) > 0
      ensures Steps(blocks) <= fuel
      ensures completed ==> downcount <= 0
      ensures !completed ==> Steps(blocks) == fuel
      ensures old(downcount) <= 0 ==> completed && blocks == []
      ensures |log| == |old(log)| + Steps(blocks) && log[..|old(log)|] == old(log)
      ensures CyclesOf(log) == CyclesOf(old(log)) + Concat(blocks)
    {
      blocks, completed := [], true;
      var budget: nat := fuel;
      while completed && downcount > 0
        invariant downcount == old(downcount) - Total(blocks)
        invariant forall b :: 0 <= b < |blocks| ==> blocks[b] != [] && old(downcount) - Total(blocks[..b]) > 0
        invariant budget + Steps(blocks) == fuel
        invariant !completed ==> budget == 0
        invariant old(downcount) <= 0 ==> completed && blocks == []
        invariant |log| == |old(log)| + Steps(blocks) && log[..|old(log)|] == old(log)
        invariant CyclesOf(log) == CyclesOf(old(log)) + Concat(blocks)
        decreases budget, completed
      {
        if budget == 0 {
          completed := false;
        } else {
          ghost var before := log;
          var block, cycles := RunBlock(budget);
          assert log[..|old(log)|] == log[..|before|][..|old(log)|];
          budget := budget - |block|;
          BlocksAppend(old(downcount), blocks, block);
          AppendAssociates(CyclesOf(old(log)), Concat(blocks), block);
          blocks := blocks + [block];
          downcount := downcount - cycles;
          completed := endBlock;
        }
      }
    }
  }

  function Sum(xs: seq<nat>): nat
  {
    if xs == [] then 0 else xs[0] + Sum(xs[1..])
  }

  lemma {:induction false} SumAppend(xs: seq<nat>, ys: seq<nat>)
    ensures Sum(xs + ys) == Sum(xs) + Sum(ys)
  {
    if xs == [] {
      assert xs + ys == ys;
    } else {
      assert (xs + ys)[1..] == xs[1..] + ys;
      SumAppend(xs[1..], ys);
    }
  }

  /** The cycles of a sequence of blocks. */
  function Total(blocks: seq<seq<nat>>): nat
  {
    if blocks == [] then 0 else Total(blocks[..|blocks| - 1]) + Sum(blocks[|blocks| - 1])
  }

  /** The cycles of a sequence of blocks, one block after the other. */
  function Concat(blocks: seq<seq<nat>>): seq<nat>
  {
    if blocks == [] then [] else Concat(blocks[..|blocks| - 1]) + blocks[|blocks| - 1]
  }

  /** The steps of a sequence of blocks. */
  function Steps(blocks: seq<seq<nat>>): nat
  {
    if blocks == [] then 0 else Steps(blocks[..|blocks| - 1]) + |blocks[|blocks| - 1]|
  }

  /** Appending a block adds its cycles and steps; when the block is not
    * empty and starts with `start - Total(blocks)` positive, every block
    * still starts with a positive remainder of `start`. */
  lemma BlocksAppend(start: int, blocks: seq<seq<nat>>, block: seq<nat>)
    requires forall b :: 0 <= b < |blocks| ==> blocks[b] != [] && start - Total(blocks[..b]) > 0
    requires block != [] && start - Total(blocks) > 0
    ensures Total(blocks + [block]) == Total(blocks) + Sum(block)
    ensures Steps(blocks + [block]) == Steps(blocks) + |block|
    ensures Concat(blocks + [block]) == Concat(blocks) + block
    ensures forall b :: 0 <= b < |blocks + [block]| ==>
              (blocks + [block])[b] != [] && start - Total((blocks + [block])[..b]) > 0
  {
    var all := blocks + [block];
    assert all[..|all| - 1] == blocks;
    forall b | 0 <= b < |all|
      ensures all[b] != [] && start - Total(all[..b]) > 0
    {
      if b < |blocks| {
        assert all[..b] == blocks[..b];
      }
    }
  }

  /** One more step logged inside a block: the log still extends the one
    * from before the block, its cycles still follow the block's, and only
    * the newest step may have set the block flag. */
  lemma BlockLogAppend(start: seq<Step>, before: seq<Step>, block: seq<nat>, step: Step)
    requires |before| == |start| + |block| && before[..|start|] == start
    requires CyclesOf(before) == CyclesOf(start) + block
    requires forall k :: |start| <= k < |before| - 1 ==> !before[k].blockEnded
    requires block != [] ==> !before[|before| - 1].blockEnded
    ensures var after := before + [step];
      |after| == |start| + |block + [step.cycles]| && after[..|start|] == start &&
      CyclesOf(after) == CyclesOf(start) + (block + [step.cycles]) &&
      (forall k :: |start| <= k < |after| - 1 ==> !after[k].blockEnded) &&
      after[|after| - 1] == step
  {
    LogAppend(before, step, |start|);
    AppendAssociates(CyclesOf(start), block, [step.cycles]);
  }

  lemma AppendAssociates<T>(a: seq<T>, b: seq<T>, c: seq<T>)
    ensures (a + b) + c == a + (b + c)
  {
  }

  /** The cycles taken for a sequence of blocks are the sum of all their
    * steps' cycles, and there are as many steps as cycle counts. */
  lemma {:induction false} TotalIsSum(blocks: seq<seq<nat>>)
    ensures Total(blocks) == Sum(Concat(blocks))
    ensures Steps(blocks) == |Concat(blocks)|
  {
    if blocks != [] {
      var init := blocks[..|blocks| - 1];
      TotalIsSum(init);
      SumAppend(Concat(init), blocks[|blocks| - 1]);
    }
  }
}
