/**
 * The cycle driver of the pipelined emulator (ca-pa3/main.c, lines 278-429)
 * as pure functions over the five stage records `stages[IF..WB]`. The class
 * in pipeline_machine.dfy updates an array of stage records in place and is
 * proved to agree with these functions.
 *
 * The stage bodies IF_stage .. WB_stage are declared extern and their code
 * is not part of this model. What the driver can observe of a stage body is
 * that it was called, which make_stall calls it issued and, for IF_stage,
 * the word and address it stores in stages[IF], which the framework
 * requires of it and which the next cycle moves into ID, decodes and counts
 * for termination. So a call is an entry in a call log, and the rest is an
 * input: a StageEffects value per cycle.
 */
module PipelineDriver {
  import opened Words
  import opened PipelineParse

  /** A stage index: `enum pipesim_constants` (types.h). */
  type StageId = x: nat | x < 5

  const IF: StageId := 0
  const ID: StageId := 1
  const EX: StageId := 2
  const MEM: StageId := 3
  const WB: StageId := 4
  const NR_STAGES: nat := 5

  /** `struct stage`: the instruction in a slot, its address and its stall counter. */
  datatype Stage = Stage(instruction: Instruction, pc: u32, nrStalls: u32)

  /** A slot with a noop injected: no instruction and address 0, the counter kept. */
  function Bubble(nrStalls: u32): Stage
  {
    Stage(NOOP_INSTRUCTION, 0, nrStalls)
  }

  /** is_noop (lines 278-282): the slot has nothing to do this cycle. */
  predicate IsNoop(s: Stage)
  {
    s.instruction.machineCode == 0 && s.pc == 0
  }

  /** The slots __is_program_finished counts as idle (line 291): a zero word fetched from a real address. */
  predicate IsIdle(s: Stage)
  {
    s.instruction.machineCode == 0 && s.pc != 0
  }

  /** The number of idle slots. */
  function IdleCount(stages: seq<Stage>): (n: nat)
    ensures n <= |stages|
  {
    if stages == [] then 0
    else IdleCount(stages[..|stages| - 1]) + if IsIdle(stages[|stages| - 1]) then 1 else 0
  }

  /** What __is_program_finished returns (lines 284-298): true while fewer than five slots are idle. */
  predicate NotFinished(stages: seq<Stage>)
  {
    IdleCount(stages) < NR_STAGES
  }

  // ---------------------------------------------------------------------
  // The stall counters (lines 308-322)
  // ---------------------------------------------------------------------

  /** make_stall (lines 308-312): the `int` is added to the `unsigned int` counter, modulo 2^32. */
  function MakeStallAt(stages: seq<Stage>, stage: StageId, cycles: int): seq<Stage>
    requires |stages| == NR_STAGES
  {
    stages[stage := stages[stage].(nrStalls := Wrap(stages[stage].nrStalls as int + cycles))]
  }

  datatype StallCheck = StallCheck(stall: bool, stages: seq<Stage>)

  function Decremented(c: u32): u32
  {
    if c == 0 then 0 else c - 1
  }

  /**
   * __should_stall (lines 314-322): a zero counter stays zero and the answer
   * is no; otherwise the counter drops by one and the answer is whether it
   * is still positive, that is, whether it was at least two.
   */
  function ShouldStallAt(stages: seq<Stage>, stage: StageId): (r: StallCheck)
    requires |stages| == NR_STAGES
    ensures r.stall <==> stages[stage].nrStalls >= 2
    ensures r.stages == stages[stage := stages[stage].(nrStalls := Decremented(stages[stage].nrStalls))]
  {
    var c := stages[stage].nrStalls;
    if c == 0 then StallCheck(false, stages)
    else StallCheck(c - 1 != 0, stages[stage := stages[stage].(nrStalls := c - 1)])
  }

  /** The answers of k successive __should_stall(stage) calls with nothing in between. */
  function StallAnswers(stages: seq<Stage>, stage: StageId, k: nat): seq<bool>
    requires |stages| == NR_STAGES
    decreases k
  {
    if k == 0 then []
    else
      var r := ShouldStallAt(stages, stage);
      [r.stall] + StallAnswers(r.stages, stage, k - 1)
  }

  /** A counter of c makes __should_stall answer yes exactly c - 1 times, then no. */
  lemma {:induction false} Countdown(stages: seq<Stage>, stage: StageId, k: nat)
    requires |stages| == NR_STAGES
    ensures |StallAnswers(stages, stage, k)| == k
    ensures forall i :: 0 <= i < k ==> StallAnswers(stages, stage, k)[i] == (i + 1 < stages[stage].nrStalls as int)
    decreases k
  {
    if k > 0 {
      var r := ShouldStallAt(stages, stage);
      Countdown(r.stages, stage, k - 1);
      forall i | 0 < i < k
        ensures StallAnswers(stages, stage, k)[i] == (i + 1 < stages[stage].nrStalls as int)
      {
        assert StallAnswers(stages, stage, k)[i] == StallAnswers(r.stages, stage, k - 1)[i - 1];
      }
    }
  }

  /** From a zero counter, make_stall(stage, n) with n >= 1 makes the next n - 1 checks answer yes, and no later one. */
  lemma StallAfterMakeStall(stages: seq<Stage>, stage: StageId, n: int, k: nat)
    requires |stages| == NR_STAGES && stages[stage].nrStalls == 0 && 1 <= n < 0x8000_0000
    ensures |StallAnswers(MakeStallAt(stages, stage, n), stage, k)| == k
    ensures forall i :: 0 <= i < k ==> StallAnswers(MakeStallAt(stages, stage, n), stage, k)[i] == (i < n - 1)
  {
    Countdown(MakeStallAt(stages, stage, n), stage, k);
  }

  // ---------------------------------------------------------------------
  // The preparation loop of __run_cycle (lines 340-355)
  // ---------------------------------------------------------------------

  /**
   * The loop from slot i down to slot 1: a slot that does not stall takes
   * the instruction and address of the slot below it and keeps its own
   * counter; the first slot that stalls becomes a bubble and ends the loop.
   */
  function ShiftFrom(stages: seq<Stage>, i: nat): (r: seq<Stage>)
    requires |stages| == NR_STAGES && i < NR_STAGES
    ensures |r| == NR_STAGES
    decreases i
  {
    if i == 0 then stages
    else
      var c := ShouldStallAt(stages, i);
      if !c.stall then
        var below := c.stages[i - 1];
        ShiftFrom(c.stages[i := Stage(below.instruction, below.pc, c.stages[i].nrStalls)], i - 1)
      else c.stages[i := Bubble(c.stages[i].nrStalls)]
  }

  function Shift(stages: seq<Stage>): (r: seq<Stage>)
    requires |stages| == NR_STAGES
    ensures |r| == NR_STAGES
  {
    ShiftFrom(stages, NR_STAGES - 1)
  }

  /** The first slot, scanning down from i to 1, whose counter is at least two; 0 if there is none. */
  function FirstStall(stages: seq<Stage>, i: nat): (k: nat)
    requires |stages| == NR_STAGES && i < NR_STAGES
    ensures k <= i && (k > 0 ==> stages[k].nrStalls >= 2)
    ensures forall j :: k < j <= i ==> stages[j].nrStalls < 2
  {
    if i == 0 then 0 else if stages[i].nrStalls >= 2 then i else FirstStall(stages, i - 1)
  }

  /**
   * What the loop from slot i leaves in slot j, for k the first stalled
   * slot: every slot from i down to k + 1 holds the pre-cycle instruction
   * and address of the slot below it, with counter 0 (its counter was below
   * two and has been decremented); slot k, when it is not 0, is a bubble
   * with its counter decremented; every other slot is unchanged.
   */
  function ShiftedSlot(stages: seq<Stage>, i: nat, j: nat): Stage
    requires |stages| == NR_STAGES && i < NR_STAGES && j < NR_STAGES
  {
    var k := FirstStall(stages, i);
    if k < j <= i then Stage(stages[j - 1].instruction, stages[j - 1].pc, 0)
    else if 0 < k == j then Bubble(stages[k].nrStalls - 1)
    else stages[j]
  }

  lemma {:induction false} ShiftFromSlot(stages: seq<Stage>, i: nat, j: nat)
    requires |stages| == NR_STAGES && i < NR_STAGES && j < NR_STAGES
    ensures ShiftFrom(stages, i)[j] == ShiftedSlot(stages, i, j)
    decreases i
  {
    if i > 0 {
      var c := ShouldStallAt(stages, i);
      if c.stall {
        assert ShiftFrom(stages, i) == c.stages[i := Bubble(c.stages[i].nrStalls)];
      } else {
        var below := c.stages[i - 1];
        var moved := c.stages[i := Stage(below.instruction, below.pc, c.stages[i].nrStalls)];
        assert ShiftFrom(stages, i) == ShiftFrom(moved, i - 1);
        ShiftFromSlot(moved, i - 1, j);
        MovedSlot(stages, moved, i, j);
      }
    }
  }

  /** One round of the loop that does not stall leaves the rest of the loop the same work. */
  lemma MovedSlot(stages: seq<Stage>, moved: seq<Stage>, i: nat, j: nat)
    requires |stages| == NR_STAGES && |moved| == NR_STAGES && 0 < i < NR_STAGES && j < NR_STAGES
    requires stages[i].nrStalls < 2
    requires moved == stages[i := Stage(stages[i - 1].instruction, stages[i - 1].pc, 0)]
    ensures ShiftedSlot(moved, i - 1, j) == ShiftedSlot(stages, i, j)
  {
    SameFirstStall(stages, moved, i - 1);
    assert FirstStall(stages, i) == FirstStall(stages, i - 1);
  }

  lemma {:induction false} SameFirstStall(a: seq<Stage>, b: seq<Stage>, i: nat)
    requires |a| == NR_STAGES && |b| == NR_STAGES && i < NR_STAGES
    requires forall j :: 0 <= j <= i ==> a[j].nrStalls == b[j].nrStalls
    ensures FirstStall(a, i) == FirstStall(b, i)
  {
    if i > 0 {
      SameFirstStall(a, b, i - 1);
    }
  }

  /**
   * The whole loop, from slot 4: slots above the first stalled one take the
   * pre-cycle contents of the slot below, the stalled one becomes a bubble,
   * and the slots below it, IF among them, are not touched.
   */
  lemma ShiftSlots(stages: seq<Stage>)
    requires |stages| == NR_STAGES
    ensures var k, r := FirstStall(stages, NR_STAGES - 1), Shift(stages);
      && (forall j :: k < j < NR_STAGES ==> r[j] == Stage(stages[j - 1].instruction, stages[j - 1].pc, 0))
      && (k > 0 ==> r[k] == Bubble(stages[k].nrStalls - 1))
      && (forall j :: 0 <= j < k ==> r[j] == stages[j])
      && r[IF] == stages[IF]
  {
    forall j | 0 <= j < NR_STAGES
      ensures Shift(stages)[j] == ShiftedSlot(stages, NR_STAGES - 1, j)
    {
      ShiftFromSlot(stages, NR_STAGES - 1, j);
    }
  }

  // ---------------------------------------------------------------------
  // One cycle (lines 334-402)
  // ---------------------------------------------------------------------

  /** One make_stall(stage, cycles) call issued by a stage body. */
  datatype StallRequest = StallRequest(stage: StageId, cycles: int)

  /** The make_stall calls each stage body issues during one cycle, indexed by stage. */
  type StageRequests = r: seq<seq<StallRequest>> | |r| == NR_STAGES witness [[], [], [], [], []]

  /** The word IF_stage fetched and the address it fetched it from. */
  datatype Fetch = Fetch(word: u32, pc: u32)

  /** What the stage bodies do to the stage records during one cycle: the make_stall calls of each, and IF_stage's fetch. */
  datatype StageEffects = StageEffects(stalls: StageRequests, fetched: Fetch)

  /**
   * IF_stage's store into its own slot: the fetched word becomes
   * `instruction.machine_code` and its address `__pc`; the other fields of
   * the record are left as they were.
   */
  function StoreFetched(stages: seq<Stage>, f: Fetch): (r: seq<Stage>)
    requires |stages| == NR_STAGES
    ensures |r| == NR_STAGES
  {
    stages[IF := stages[IF].(instruction := stages[IF].instruction.(machineCode := f.word), pc := f.pc)]
  }

  function ApplyStalls(stages: seq<Stage>, requests: seq<StallRequest>): (r: seq<Stage>)
    requires |stages| == NR_STAGES
    ensures |r| == NR_STAGES
    decreases |requests|
  {
    if requests == [] then stages
    else ApplyStalls(MakeStallAt(stages, requests[0].stage, requests[0].cycles), requests[1..])
  }

  /** The total of the make_stall calls in `requests` that name `stage`. */
  function Requested(requests: seq<StallRequest>, stage: StageId): int
  {
    if requests == [] then 0
    else (if requests[0].stage == stage then requests[0].cycles else 0) + Requested(requests[1..], stage)
  }

  /**
   * make_stall calls in a row leave every instruction and address alone and
   * add to each counter, modulo 2^32, the total requested for its slot.
   */
  lemma {:induction false} ApplyStallsAdds(stages: seq<Stage>, requests: seq<StallRequest>, j: StageId)
    requires |stages| == NR_STAGES
    ensures var r := ApplyStalls(stages, requests);
      && r[j].instruction == stages[j].instruction && r[j].pc == stages[j].pc
      && r[j].nrStalls == Wrap(stages[j].nrStalls as int + Requested(requests, j))
    decreases |requests|
  {
    if requests == [] {
      assert Wrap(stages[j].nrStalls as int) == stages[j].nrStalls;
    } else {
      var next := MakeStallAt(stages, requests[0].stage, requests[0].cycles);
      ApplyStallsAdds(next, requests[1..], j);
      var own := if requests[0].stage == j then requests[0].cycles else 0;
      assert next[j].nrStalls == Wrap(stages[j].nrStalls as int + own) by {
        if requests[0].stage != j {
          assert Wrap(stages[j].nrStalls as int) == stages[j].nrStalls;
        }
      }
      WrapAdd(stages[j].nrStalls as int + own, Requested(requests[1..], j));
    }
  }

  /** The stage records after the cycle, the stage bodies called in order, and whether decoding aborted. */
  datatype CycleResult = CycleResult(stages: seq<Stage>, calls: seq<StageId>, exited: bool)

  /**
   * The end of __run_cycle before `done:` (lines 374-388), once ID's counter
   * is zero: decode the word in ID in place (an unknown opcode aborts the
   * emulator), call ID_stage, then call IF_stage unless IF's own
   * __should_stall says yes, in which case IF becomes a bubble. IF_stage
   * stores its fetch in stages[IF]. `calls` are the stage bodies called here.
   */
  function DecodeAndFetch(stages: seq<Stage>, effects: StageEffects): (r: CycleResult)
    requires |stages| == NR_STAGES
    ensures |r.stages| == NR_STAGES
  {
    match Parse(stages[ID].instruction.machineCode)
    case None => CycleResult(stages, [], true)
    case Some(decoded) =>
      var s := ApplyStalls(stages[ID := stages[ID].(instruction := decoded)], effects.stalls[ID]);
      var c := ShouldStallAt(s, IF);
      if c.stall then CycleResult(c.stages[IF := Bubble(c.stages[IF].nrStalls)], [ID], false)
      else CycleResult(ApplyStalls(StoreFetched(c.stages, effects.fetched), effects.stalls[IF]), [ID, IF], false)
  }

  /**
   * The stage calls of __run_cycle (lines 362-388), on the records the
   * preparation loop left. WB always runs; MEM, EX and ID each run only
   * while their counter is zero (`goto done` otherwise); then
   * DecodeAndFetch.
   */
  function InvokeAll(stages: seq<Stage>, effects: StageEffects): (r: CycleResult)
    requires |stages| == NR_STAGES
    ensures |r.stages| == NR_STAGES
  {
    var s1 := ApplyStalls(stages, effects.stalls[WB]);
    if s1[MEM].nrStalls != 0 then CycleResult(s1, [WB], false)
    else
      var s2 := ApplyStalls(s1, effects.stalls[MEM]);
      if s2[EX].nrStalls != 0 then CycleResult(s2, [WB, MEM], false)
      else
        var s3 := ApplyStalls(s2, effects.stalls[EX]);
        if s3[ID].nrStalls != 0 then CycleResult(s3, [WB, MEM, EX], false)
        else
          var t := DecodeAndFetch(s3, effects);
          CycleResult(t.stages, [WB, MEM, EX] + t.calls, t.exited)
  }

  /** __run_cycle up to `done:`: the preparation loop, then the stage calls. */
  function Cycle(stages: seq<Stage>, effects: StageEffects): (r: CycleResult)
    requires |stages| == NR_STAGES
    ensures |r.stages| == NR_STAGES
  {
    InvokeAll(Shift(stages), effects)
  }

  const STAGE_ORDER: seq<StageId> := [WB, MEM, EX, ID, IF]

  /**
   * The stage bodies are called in reverse pipeline order, each at most
   * once, WB always and first; a cycle that aborts in the decoder has called
   * WB, MEM and EX.
   */
  lemma CycleCallOrder(stages: seq<Stage>, effects: StageEffects)
    requires |stages| == NR_STAGES
    ensures var r := Cycle(stages, effects);
      && 1 <= |r.calls| <= NR_STAGES
      && r.calls == STAGE_ORDER[..|r.calls|]
      && (r.exited ==> |r.calls| == 3)
  {
  }

  const NO_STALLS: StageRequests := [[], [], [], [], []]

  /** No stage body issues make_stall during the cycle; IF_stage, if it runs, fetches f. */
  function Quiet(f: Fetch): StageEffects
  {
    StageEffects(NO_STALLS, f)
  }

  /**
   * The skipping rules when the stage bodies request no stalls, in terms of
   * the records after the preparation loop: MEM runs iff its counter is 0,
   * EX iff also its own is, ID iff also its own is and the word in ID
   * decodes, IF iff also its counter is below 2 (its check then answers no).
   */
  lemma QuietCycleCalls(stages: seq<Stage>, f: Fetch)
    requires |stages| == NR_STAGES
    ensures var r, s := Cycle(stages, Quiet(f)), Shift(stages);
      var decodes := Parse(s[ID].instruction.machineCode).Some?;
      && (|r.calls| >= 2 <==> s[MEM].nrStalls == 0)
      && (|r.calls| >= 3 <==> s[MEM].nrStalls == 0 && s[EX].nrStalls == 0)
      && (|r.calls| >= 4 <==> s[MEM].nrStalls == 0 && s[EX].nrStalls == 0 && s[ID].nrStalls == 0 && decodes)
      && (r.exited <==> s[MEM].nrStalls == 0 && s[EX].nrStalls == 0 && s[ID].nrStalls == 0 && !decodes)
      && (|r.calls| == 5 <==> |r.calls| >= 4 && s[IF].nrStalls < 2)
  {
    assert forall x: seq<Stage> | |x| == NR_STAGES :: ApplyStalls(x, []) == x;
  }

  /**
   * The records a quiet cycle leaves behind: when ID runs it holds the
   * decoded instruction, and IF either holds the word and address IF_stage
   * fetched or, when it stalls, is a bubble with its counter decremented;
   * otherwise the records are those of the preparation loop.
   */
  lemma QuietCycleStages(stages: seq<Stage>, f: Fetch)
    requires |stages| == NR_STAGES
    ensures var r, s := Cycle(stages, Quiet(f)), Shift(stages);
      && (|r.calls| < 4 ==> r.stages == s)
      && (|r.calls| >= 4 ==>
        && r.stages[ID].instruction == Parse(s[ID].instruction.machineCode).value
        && r.stages[ID].pc == s[ID].pc
        && r.stages[MEM] == s[MEM] && r.stages[EX] == s[EX] && r.stages[WB] == s[WB])
      && (|r.calls| == 4 ==> r.stages[IF] == Bubble(s[IF].nrStalls - 1))
      && (|r.calls| == 5 ==> r.stages[IF] == Stage(s[IF].instruction.(machineCode := f.word), f.pc, Decremented(s[IF].nrStalls)))
  {
    assert forall x: seq<Stage> | |x| == NR_STAGES :: ApplyStalls(x, []) == x;
  }

  /**
   * What any cycle leaves in IF: the word and address IF_stage stored when
   * it ran; a bubble when ID ran but IF's check said stall; and the
   * pre-cycle word and address of IF when the cycle ended before ID_stage.
   */
  lemma FetchedSlot(stages: seq<Stage>, effects: StageEffects)
    requires |stages| == NR_STAGES
    ensures var r := Cycle(stages, effects);
      && (|r.calls| == 5 ==> r.stages[IF].instruction.machineCode == effects.fetched.word && r.stages[IF].pc == effects.fetched.pc)
      && (|r.calls| == 4 ==> r.stages[IF].instruction == NOOP_INSTRUCTION && r.stages[IF].pc == 0)
      && (|r.calls| < 4 ==> r.stages[IF].instruction == stages[IF].instruction && r.stages[IF].pc == stages[IF].pc)
  {
    var s := Shift(stages);
    ShiftSlots(stages);
    var s1 := ApplyStalls(s, effects.stalls[WB]);
    ApplyStallsAdds(s, effects.stalls[WB], IF);
    if s1[MEM].nrStalls == 0 {
      var s2 := ApplyStalls(s1, effects.stalls[MEM]);
      ApplyStallsAdds(s1, effects.stalls[MEM], IF);
      if s2[EX].nrStalls == 0 {
        var s3 := ApplyStalls(s2, effects.stalls[EX]);
        ApplyStallsAdds(s2, effects.stalls[EX], IF);
        if s3[ID].nrStalls == 0 {
          FetchedSlotAfterDecode(s3, effects);
        }
      }
    }
  }

  lemma FetchedSlotAfterDecode(stages: seq<Stage>, effects: StageEffects)
    requires |stages| == NR_STAGES
    ensures var r := DecodeAndFetch(stages, effects);
      && (|r.calls| == 2 ==> r.stages[IF].instruction.machineCode == effects.fetched.word && r.stages[IF].pc == effects.fetched.pc)
      && (|r.calls| == 1 ==> r.stages[IF].instruction == NOOP_INSTRUCTION && r.stages[IF].pc == 0)
      && (|r.calls| == 0 ==> r.stages[IF] == stages[IF])
  {
    match Parse(stages[ID].instruction.machineCode)
    case None =>
    case Some(decoded) =>
      var s := ApplyStalls(stages[ID := stages[ID].(instruction := decoded)], effects.stalls[ID]);
      var c := ShouldStallAt(s, IF);
      if !c.stall {
        ApplyStallsAdds(StoreFetched(c.stages, effects.fetched), effects.stalls[IF], IF);
      }
  }

  /**
   * A cycle with every counter zero and no make_stall calls, whose IF slot
   * holds a word that decodes: all five bodies run, every slot from ID up
   * takes the word and address of the slot below, IF holds the new fetch,
   * and the counters stay zero.
   */
  lemma QuietFullCycle(stages: seq<Stage>, f: Fetch)
    requires |stages| == NR_STAGES
    requires forall j :: 0 <= j < NR_STAGES ==> stages[j].nrStalls == 0
    requires Parse(stages[IF].instruction.machineCode).Some?
    ensures var r := Cycle(stages, Quiet(f));
      && r.calls == STAGE_ORDER && !r.exited
      && (forall j :: 0 < j < NR_STAGES ==>
            r.stages[j].instruction.machineCode == stages[j - 1].instruction.machineCode && r.stages[j].pc == stages[j - 1].pc)
      && r.stages[IF].instruction.machineCode == f.word && r.stages[IF].pc == f.pc
      && (forall j :: 0 <= j < NR_STAGES ==> r.stages[j].nrStalls == 0)
  {
    var s := Shift(stages);
    ShiftSlots(stages);
    assert FirstStall(stages, NR_STAGES - 1) == 0;
    QuietCycleCalls(stages, f);
    QuietCycleStages(stages, f);
    CycleCallOrder(stages, Quiet(f));
    ParseRoundTrip(s[ID].instruction.machineCode);
  }

  /**
   * The exit of __run_program's loop is reachable: when the four slots from
   * IF to EX are idle, every counter is zero and IF_stage fetches the word 0
   * from a non-zero address, the cycle returns false.
   */
  lemma IdleFetchFinishes(stages: seq<Stage>, f: Fetch)
    requires |stages| == NR_STAGES
    requires forall j :: 0 <= j < NR_STAGES ==> stages[j].nrStalls == 0
    requires forall j :: 0 <= j < NR_STAGES - 1 ==> IsIdle(stages[j])
    requires f.word == 0 && f.pc != 0
    ensures EndOf(Cycle(stages, Quiet(f))) == Returned(false)
  {
    assert Parse(0).Some? by {
      ParseFollowsTable(0);
    }
    QuietFullCycle(stages, f);
    var r := Cycle(stages, Quiet(f));
    ShiftedIdle(stages, r.stages, f);
  }

  /** Idle slots moved up one place, with an idle fetch below them, fill the pipeline with idle slots. */
  lemma ShiftedIdle(before: seq<Stage>, after: seq<Stage>, f: Fetch)
    requires |before| == NR_STAGES && |after| == NR_STAGES
    requires forall j :: 0 <= j < NR_STAGES - 1 ==> IsIdle(before[j])
    requires forall j :: 0 < j < NR_STAGES ==>
      after[j].instruction.machineCode == before[j - 1].instruction.machineCode && after[j].pc == before[j - 1].pc
    requires after[IF].instruction.machineCode == f.word && after[IF].pc == f.pc && f.word == 0 && f.pc != 0
    ensures forall i :: 0 <= i < NR_STAGES ==> after[i].instruction.machineCode == 0 && after[i].pc != 0
  {
    forall i | 0 < i < NR_STAGES
      ensures after[i].instruction.machineCode == 0 && after[i].pc != 0
    {
      assert IsIdle(before[i - 1]);
    }
  }

  // ---------------------------------------------------------------------
  // __run_program (lines 416-429)
  // ---------------------------------------------------------------------

  /** How a __run_cycle call ended: with its return value, or in exit(-1). */
  datatype CycleEnd = Returned(notFinished: bool) | Exited

  /** The stage records after the run, the stage bodies called, and the __run_cycle calls and how each ended. */
  datatype RunResult = RunResult(stages: seq<Stage>, calls: seq<StageId>, ends: seq<CycleEnd>)

  /**
   * What one __run_cycle call returns, or Exited where it aborts: a cycle
   * that does not abort returns false exactly when every slot holds the
   * word 0 fetched from a non-zero address.
   */
  function EndOf(c: CycleResult): (end: CycleEnd)
    requires |c.stages| == NR_STAGES
    ensures end == Exited <==> c.exited
    ensures end == Returned(false) <==>
      !c.exited && forall i :: 0 <= i < NR_STAGES ==> c.stages[i].instruction.machineCode == 0 && c.stages[i].pc != 0
  {
    AllIdle(c.stages);
    if c.exited then Exited else Returned(NotFinished(c.stages))
  }

  /**
   * The loop of __run_program from its done-th round on, for at most limit
   * rounds in all; schedule(i) is what the stage bodies do in round i.
   * `log` and `ends` are the stage bodies called and the cycle ends seen
   * before round done; the loop goes on while a cycle returns true.
   */
  function RunFrom(stages: seq<Stage>, schedule: nat -> StageEffects, done: nat, limit: nat,
                   log: seq<StageId>, ends: seq<CycleEnd>): (r: RunResult)
    requires |stages| == NR_STAGES
    ensures |r.stages| == NR_STAGES
    decreases limit - done
  {
    if done >= limit then RunResult(stages, log, ends)
    else
      var c := Cycle(stages, schedule(done));
      var end := EndOf(c);
      if end != Returned(true) then RunResult(c.stages, log + c.calls, ends + [end])
      else RunFrom(c.stages, schedule, done + 1, limit, log + c.calls, ends + [end])
  }

  /** __run_program only appends to the call log and to the cycle ends. */
  lemma {:induction false} RunAppends(stages: seq<Stage>, schedule: nat -> StageEffects, done: nat, limit: nat,
                                      log: seq<StageId>, ends: seq<CycleEnd>)
    requires |stages| == NR_STAGES
    ensures var r := RunFrom(stages, schedule, done, limit, log, ends);
      && |log| <= |r.calls| && r.calls[..|log|] == log
      && |ends| <= |r.ends| && r.ends[..|ends|] == ends
    decreases limit - done
  {
    if done < limit {
      var c := Cycle(stages, schedule(done));
      var end := EndOf(c);
      var log', ends' := log + c.calls, ends + [end];
      assert log'[..|log|] == log && ends'[..|ends|] == ends;
      if end == Returned(true) {
        RunAppends(c.stages, schedule, done + 1, limit, log', ends');
        var r := RunFrom(c.stages, schedule, done + 1, limit, log', ends');
        assert r.calls[..|log|] == r.calls[..|log'|][..|log|];
        assert r.ends[..|ends|] == r.ends[..|ends'|][..|ends|];
      }
    }
  }

  /**
   * The cycle ends `ends` continue `before` with at most `room` more, all
   * of them true but the last, and fewer than `room` only when the last
   * one is not true.
   */
  predicate StopsAtFirstFalse(before: seq<CycleEnd>, ends: seq<CycleEnd>, room: nat)
  {
    && |before| <= |ends| <= |before| + room && ends[..|before|] == before
    && (forall i :: |before| <= i < |ends| - 1 ==> ends[i] == Returned(true))
    && (|ends| < |before| + room ==> |ends| > |before| && ends[|ends| - 1] != Returned(true))
  }

  /** A true end followed by a run that stops at its first false one is such a run itself. */
  lemma StopsAfterTrue(before: seq<CycleEnd>, ends: seq<CycleEnd>, room: nat)
    requires room > 0 && StopsAtFirstFalse(before + [Returned(true)], ends, room - 1)
    ensures StopsAtFirstFalse(before, ends, room)
  {
    var next := before + [Returned(true)];
    assert ends[..|before|] == ends[..|next|][..|before|];
    forall i | |before| <= i < |ends| - 1
      ensures ends[i] == Returned(true)
    {
      if i == |before| {
        assert ends[i] == ends[..|next|][i];
      }
    }
  }

  /**
   * __run_program calls __run_cycle at most limit times; every call but the
   * last returned true; and the run ends early only on a call that returned
   * false or aborted.
   */
  lemma {:induction false} RunStopsAtFirstFalse(stages: seq<Stage>, schedule: nat -> StageEffects, done: nat, limit: nat,
                                                log: seq<StageId>, ends: seq<CycleEnd>)
    requires |stages| == NR_STAGES && done <= limit
    ensures StopsAtFirstFalse(ends, RunFrom(stages, schedule, done, limit, log, ends).ends, limit - done)
    decreases limit - done
  {
    if done < limit {
      var c := Cycle(stages, schedule(done));
      var end := EndOf(c);
      if end == Returned(true) {
        RunStopsAtFirstFalse(c.stages, schedule, done + 1, limit, log + c.calls, ends + [end]);
        StopsAfterTrue(ends, RunFrom(c.stages, schedule, done + 1, limit, log + c.calls, ends + [end]).ends, limit - done);
      } else {
        assert (ends + [end])[..|ends|] == ends;
      }
    }
  }

  /** The number of __run_cycle calls that reached `__cycles++`. */
  function Completed(ends: seq<CycleEnd>): (n: nat)
    ensures n <= |ends|
  {
    if ends == [] then 0 else Completed(ends[..|ends| - 1]) + if ends[|ends| - 1].Returned? then 1 else 0
  }

  lemma CompletedAppend(ends: seq<CycleEnd>, end: CycleEnd)
    ensures Completed(ends + [end]) == Completed(ends) + if end.Returned? then 1 else 0
  {
    assert (ends + [end])[..|ends|] == ends;
  }

  // ---------------------------------------------------------------------
  // Idle slots and termination
  // ---------------------------------------------------------------------

  /** __is_program_finished answers false exactly when all five slots are idle. */
  lemma {:induction false} AllIdle(stages: seq<Stage>)
    ensures IdleCount(stages) == |stages| <==> forall i :: 0 <= i < |stages| ==> IsIdle(stages[i])
  {
    if stages != [] {
      var front := stages[..|stages| - 1];
      AllIdle(front);
      if IdleCount(stages) == |stages| {
        forall i | 0 <= i < |stages|
          ensures IsIdle(stages[i])
        {
          if i < |stages| - 1 {
            assert stages[i] == front[i];
          }
        }
      }
      if forall i :: 0 <= i < |stages| ==> IsIdle(stages[i]) {
        assert forall i :: 0 <= i < |front| ==> IsIdle(front[i]) by {
          forall i | 0 <= i < |front| ensures IsIdle(front[i]) {
            assert front[i] == stages[i];
          }
        }
      }
    }
  }

  /** A bubble is a noop and is not idle, so a pipeline holding a bubble is not finished. */
  lemma BubbleKeepsRunning(stages: seq<Stage>, i: nat)
    requires |stages| == NR_STAGES && i < NR_STAGES && stages[i] == Bubble(stages[i].nrStalls)
    ensures IsNoop(stages[i]) && !IsIdle(stages[i])
    ensures NotFinished(stages)
  {
    AllIdle(stages);
  }
}
