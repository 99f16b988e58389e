/**
 * The pipelined emulator's driver (ca-pa3/main.c) as the C program keeps it:
 * the globals stages[], registers[], memory[], pc and __cycles become the
 * fields of a Pipeline whose methods update them in place. A stage body is
 * InvokeStage, which records the call and applies the make_stall calls the
 * body issues, and for IF_stage InvokeFetch, which also stores the fetched
 * word and its address in stages[IF]. RunCycle and RunProgram are proved to
 * agree with Cycle and RunFrom of pipeline_driver.dfy, so every property
 * proved there holds of this code.
 */
module PipelineMachine {
  import opened Words
  import opened PipelineParse
  import opened PipelineDriver

  /** `1 << 20` bytes of memory. */
  const MEMORY_SIZE: nat := 0x10_0000
  const INITIAL_PC: u32 := 0x1000
  const INITIAL_SP: u32 := 0x8000

  /**
   * The initialised part of memory[] (lines 37-46): 0x00..0x77, 0xdeadbeef,
   * then "hello world!!" and "awesome computer architecture!".
   */
  const MEMORY_PREFIX: seq<u8> := [
    0x00, 0x11, 0x22, 0x33, 0x44, 0x55, 0x66, 0x77,
    0xde, 0xad, 0xbe, 0xef, 0x00, 0x00, 0x00, 0x00,
    0x68, 0x65, 0x6c, 0x6c, 0x6f, 0x20, 0x77, 0x6f,
    0x72, 0x6c, 0x64, 0x21, 0x21, 0x00, 0x00, 0x00,
    0x61, 0x77, 0x65, 0x73, 0x6f, 0x6d, 0x65, 0x20,
    0x63, 0x6f, 0x6d, 0x70, 0x75, 0x74, 0x65, 0x72,
    0x20, 0x61, 0x72, 0x63, 0x68, 0x69, 0x74, 0x65,
    0x63, 0x74, 0x75, 0x72, 0x65, 0x21, 0x00, 0x00
  ]

  /** registers[] as initialised (lines 54-59): here s3 holds 2. */
  const INITIAL_REGISTERS: seq<u32> := [
    0, 0, 0, 0, 0, 0, 0, 0,
    0, 0, 0, 0, 0, 0, 0, 0,
    0x10, INITIAL_PC, 0x20, 2, 0xbadacafe, 0xcdcdcdcd, 0xffffffff, 7,
    0, 0, 0, 0, 0, INITIAL_SP, 0, 0
  ]

  function InitialByte(i: nat): u8
  {
    if i < |MEMORY_PREFIX| then MEMORY_PREFIX[i] else 0
  }

  /** The bound on __run_program's loop: nr_cycles, or fuel where nr_cycles is 0 (run to the end). */
  function CycleLimit(nrCycles: u32, fuel: nat): nat
  {
    if nrCycles == 0 then fuel else nrCycles as nat
  }

  class Pipeline {
    var stages: array<Stage>
    var registers: array<u32>
    var memory: array<u8>
    var pc: u32
    /** `__cycles`. */
    var cycles: int
    /** The stage bodies called so far, oldest first. */
    var calls: seq<StageId>

    ghost predicate Valid()
      reads this
    {
      stages.Length == NR_STAGES && registers.Length == 32 && memory.Length == MEMORY_SIZE
    }

    /** The globals as the program starts: zeroed stage records, nothing run yet. */
    constructor ()
      ensures Valid() && fresh(stages) && fresh(registers) && fresh(memory)
      ensures stages[..] == seq(NR_STAGES, _ => Bubble(0))
      ensures registers[..] == INITIAL_REGISTERS
      ensures memory[..] == seq(MEMORY_SIZE, i requires 0 <= i => InitialByte(i))
      ensures pc == INITIAL_PC && cycles == 0 && calls == []
    {
      stages := new Stage[NR_STAGES](_ => Bubble(0));
      registers := new u32[32](i requires 0 <= i < 32 => INITIAL_REGISTERS[i]);
      memory := new u8[MEMORY_SIZE](i => InitialByte(i));
      pc := INITIAL_PC;
      cycles := 0;
      calls := [];
    }

    /** make_stall (lines 308-312). */
    method MakeStall(stage: StageId, n: int)
      requires Valid()
      modifies stages
      ensures stages[..] == MakeStallAt(old(stages[..]), stage, n)
    {
      stages[stage] := stages[stage].(nrStalls := Wrap(stages[stage].nrStalls as int + n));
    }

    /** __should_stall (lines 314-322). */
    method ShouldStall(stage: StageId) returns (stall: bool)
      requires Valid()
      modifies stages
      ensures StallCheck(stall, stages[..]) == ShouldStallAt(old(stages[..]), stage)
    {
      if stages[stage].nrStalls == 0 {
        return false;
      }
      stages[stage] := stages[stage].(nrStalls := stages[stage].nrStalls - 1);
      stall := stages[stage].nrStalls != 0;
    }

    /**
     * A call of the extern stage body `stage` (declared at lines 261-265):
     * the call is logged, and the make_stall calls it issues are applied in
     * order.
     */
    method InvokeStage(stage: StageId, requests: seq<StallRequest>)
      requires Valid()
      modifies this, stages
      ensures Valid() && stages == old(stages) && registers == old(registers) && memory == old(memory)
      ensures pc == old(pc) && cycles == old(cycles) && calls == old(calls) + [stage]
      ensures stages[..] == ApplyStalls(old(stages[..]), requests)
    {
      calls := calls + [stage];
      IssueStalls(requests);
    }

    /**
     * A call of IF_stage: besides logging the call and applying its
     * make_stall calls, IF_stage stores the word it fetched and its address
     * in stages[IF], as the framework requires of it.
     */
    method InvokeFetch(f: Fetch, requests: seq<StallRequest>)
      requires Valid()
      modifies this, stages
      ensures Valid() && stages == old(stages) && registers == old(registers) && memory == old(memory)
      ensures pc == old(pc) && cycles == old(cycles) && calls == old(calls) + [IF]
      ensures stages[..] == ApplyStalls(StoreFetched(old(stages[..]), f), requests)
    {
      calls := calls + [IF];
      stages[IF] := stages[IF].(instruction := stages[IF].instruction.(machineCode := f.word), pc := f.pc);
      IssueStalls(requests);
    }

    /** make_stall for each request in turn. */
    method IssueStalls(requests: seq<StallRequest>)
      requires Valid()
      modifies stages
      ensures stages[..] == ApplyStalls(old(stages[..]), requests)
    {
      for i := 0 to |requests|
        invariant ApplyStalls(stages[..], requests[i..]) == ApplyStalls(old(stages[..]), requests)
      {
        assert requests[i..][1..] == requests[i + 1..];
        MakeStall(requests[i].stage, requests[i].cycles);
      }
    }

    /**
     * The preparation loop of __run_cycle (lines 340-355), from slot 4 down
     * to slot 1: move each slot's predecessor in, or inject a bubble at the
     * first slot that stalls and stop.
     */
    method ShiftStages()
      requires Valid()
      modifies stages
      ensures stages[..] == Shift(old(stages[..]))
    {
      ghost var target := Shift(stages[..]);
      var i := NR_STAGES - 1;
      while i > 0
        invariant 0 <= i < NR_STAGES && ShiftFrom(stages[..], i) == target
        decreases i
      {
        var stall := ShouldStall(i);
        if !stall {
          stages[i] := Stage(stages[i - 1].instruction, stages[i - 1].pc, stages[i].nrStalls);
        } else {
          stages[i] := Bubble(stages[i].nrStalls);
          return;
        }
        i := i - 1;
      }
    }

    /** __is_program_finished (lines 284-298): count the idle slots. */
    method IsProgramFinished() returns (notFinished: bool)
      requires Valid()
      ensures notFinished == NotFinished(stages[..])
    {
      var idle := 0;
      for i := 0 to NR_STAGES
        invariant idle == IdleCount(stages[..i])
      {
        assert stages[..i + 1][..i] == stages[..i];
        if stages[i].instruction.machineCode == 0 && stages[i].pc != 0 {
          idle := idle + 1;
        }
      }
      assert stages[..NR_STAGES] == stages[..];
      notFinished := idle < NR_STAGES;
    }

    /** Lines 374-388: the part of __run_cycle that DecodeAndFetch specifies. */
    method InvokeIdAndIf(effects: StageEffects) returns (exited: bool)
      requires Valid()
      modifies this, stages
      ensures Valid() && stages == old(stages) && registers == old(registers) && memory == old(memory)
      ensures pc == old(pc) && cycles == old(cycles)
      ensures var r := DecodeAndFetch(old(stages[..]), effects);
        stages[..] == r.stages && calls == old(calls) + r.calls && exited == r.exited
    {
      var decoded := Parse(stages[ID].instruction.machineCode);
      if decoded.None? {
        return true;
      }
      stages[ID] := stages[ID].(instruction := decoded.value);
      InvokeStage(ID, effects.stalls[ID]);
      var stall := ShouldStall(IF);
      if stall {
        stages[IF] := Bubble(stages[IF].nrStalls);
      } else {
        InvokeFetch(effects.fetched, effects.stalls[IF]);
      }
      exited := false;
    }

    /**
     * The stage calls of __run_cycle (lines 362-388). The `goto done` of
     * lines 364-373 is a break out of the labelled block.
     */
    method InvokeStages(effects: StageEffects) returns (exited: bool)
      requires Valid()
      modifies this, stages
      ensures Valid() && stages == old(stages) && registers == old(registers) && memory == old(memory)
      ensures pc == old(pc) && cycles == old(cycles)
      ensures var r := InvokeAll(old(stages[..]), effects);
        stages[..] == r.stages && calls == old(calls) + r.calls && exited == r.exited
    {
      exited := false;
      InvokeStage(WB, effects.stalls[WB]);
      label done: {
        if stages[MEM].nrStalls != 0 {
          break done;
        }
        InvokeStage(MEM, effects.stalls[MEM]);
        if stages[EX].nrStalls != 0 {
          break done;
        }
        InvokeStage(EX, effects.stalls[EX]);
        if stages[ID].nrStalls != 0 {
          break done;
        }
        exited := InvokeIdAndIf(effects);
      }
    }

    /**
     * __run_cycle (lines 334-402) with the stage bodies doing `effects`.
     * An unknown opcode in ID ends the emulator (exit(-1)) before
     * `__cycles++`.
     */
    method RunCycle(effects: StageEffects) returns (end: CycleEnd)
      requires Valid()
      modifies this, stages
      ensures Valid() && stages == old(stages) && registers == old(registers) && memory == old(memory)
      ensures pc == old(pc)
      ensures var r := Cycle(old(stages[..]), effects);
        && stages[..] == r.stages && calls == old(calls) + r.calls && end == EndOf(r)
        && cycles == old(cycles) + if r.exited then 0 else 1
    {
      ShiftStages();
      var exited := InvokeStages(effects);
      if exited {
        return Exited;
      }
      cycles := cycles + 1;
      var notFinished := IsProgramFinished();
      end := Returned(notFinished);
    }

    /**
     * One round of __run_program's loop: a __run_cycle call, and whether
     * the loop stops after it; `ends` are the cycle ends seen before it.
     */
    method RunRound(schedule: nat -> StageEffects, count: nat, ghost limit: nat, ghost ends: seq<CycleEnd>)
      returns (end: CycleEnd, stop: bool)
      requires Valid() && count < limit
      modifies this, stages
      ensures Valid() && stages == old(stages) && registers == old(registers) && memory == old(memory)
      ensures pc == old(pc) && cycles == old(cycles) + if end.Returned? then 1 else 0
      ensures stop <==> end != Returned(true)
      ensures var before := RunFrom(old(stages[..]), schedule, count, limit, old(calls), ends);
        if stop then before == RunResult(stages[..], calls, ends + [end])
        else before == RunFrom(stages[..], schedule, count + 1, limit, calls, ends + [end])
    {
      end := RunCycle(schedule(count));
      stop := end != Returned(true);
    }

    /**
     * __run_program (lines 416-429): run cycles until one returns false, at
     * most nr_cycles of them, or fuel of them where nr_cycles is 0; the
     * stage bodies of the i-th cycle do schedule(i).
     */
    method RunProgram(nrCycles: u32, fuel: nat, schedule: nat -> StageEffects) returns (ends: seq<CycleEnd>)
      requires Valid()
      modifies this, stages
      ensures Valid() && stages == old(stages) && registers == old(registers) && memory == old(memory)
      ensures pc == old(pc)
      ensures RunFrom(old(stages[..]), schedule, 0, CycleLimit(nrCycles, fuel), old(calls), []) == RunResult(stages[..], calls, ends)
      ensures cycles == old(cycles) + Completed(ends)
    {
      var count: nat := 0;
      ghost var limit := CycleLimit(nrCycles, fuel);
      ghost var target := RunFrom(stages[..], schedule, 0, limit, calls, []);
      ends := [];
      while (nrCycles == 0 && count < fuel) || (nrCycles != 0 && count < nrCycles as nat)
        invariant Valid() && stages == old(stages) && registers == old(registers) && memory == old(memory)
        invariant pc == old(pc) && count <= limit
        invariant cycles == old(cycles) + Completed(ends)
        invariant target == RunFrom(stages[..], schedule, count, limit, calls, ends)
        decreases limit - count
      {
        var end, stop := RunRound(schedule, count, limit, ends);
        CompletedAppend(ends, end);
        ends := ends + [end];
        if stop {
          return;
        }
        count := count + 1;
      }
    }

    /** The `reset` command (lines 520-523): only __cycles and pc change. */
    method Reset()
      requires Valid()
      modifies this
      ensures Valid() && stages == old(stages) && registers == old(registers) && memory == old(memory)
      ensures stages[..] == old(stages[..]) && registers[..] == old(registers[..]) && memory[..] == old(memory[..])
      ensures calls == old(calls)
      ensures cycles == 0 && pc == INITIAL_PC
    {
      cycles := 0;
      pc := INITIAL_PC;
    }
  }
}
