/**
  The multiplier: a pipeline of three stages in front of an output buffer of four slots. Each
  result is exactly the product that section 7.1 of the RISC-V Unprivileged ISA (20191213) asks
  for, and every dispatch that no squash covers is delivered once, three ticks later.
 */
module Multiplier {
  import opened Bits
  import opened Booth
  import opened Capacities
  import opened Options
  import opened RiscV
  import opened Tags

  const MUL_CAP: nat := 4

  datatype Job = Job(op: Operation, x: i32, y: i32, robTag: nat)

  datatype MulResult = MulResult(value: i32, robTag: nat)

  datatype Input = Input(dispatch: Option<Job>, squash: Option<nat>)

  predicate InputFits(input: Input) {
    input.dispatch.Some? ==> IsMultiplication(input.dispatch.value.op)
  }

  // ---------- The pipeline on values

  /** The jobs in the output buffer and in the two stages before it. */
  datatype Stages = Stages(out: Option<Job>, sum: Option<Job>, partial: Option<Job>)

  /** A job in front of the output buffer is dropped when it is younger than the squash. */
  function NotYounger(job: Option<Job>, squash: Option<nat>): Option<Job> {
    if job.Some? && squash.Some? && IsOlder(ROB_CAP, squash.value, job.value.robTag) then None else job
  }

  /** A finished job is dropped unless it is older than the squash. */
  function StrictlyOlder(job: Option<Job>, squash: Option<nat>): Option<Job> {
    if job.Some? && squash.Some? && !IsOlder(ROB_CAP, job.value.robTag, squash.value) then None else job
  }

  function StagesStep(p: Stages, input: Input): Stages {
    Stages(StrictlyOlder(p.sum, input.squash), NotYounger(p.partial, input.squash),
           NotYounger(input.dispatch, input.squash))
  }

  function ResultOf(job: Option<Job>): Option<MulResult>
    requires job.Some? ==> IsMultiplication(job.value.op)
  {
    if job.Some? then Some(MulResult(Multiply(job.value.op, job.value.x, job.value.y), job.value.robTag)) else None
  }

  predicate StagesFit(p: Stages) {
    && (p.out.Some? ==> IsMultiplication(p.out.value.op))
    && (p.sum.Some? ==> IsMultiplication(p.sum.value.op))
    && (p.partial.Some? ==> IsMultiplication(p.partial.value.op))
  }

  /** What goes over the bus in a tick. */
  function Delivered(p: Stages, squash: Option<nat>): Option<MulResult>
    requires StagesFit(p)
  {
    ResultOf(StrictlyOlder(p.out, squash))
  }

  const EMPTY_STAGES := Stages(None, None, None)

  function StagesAfter(inputs: seq<Input>): Stages {
    if inputs == [] then EMPTY_STAGES else StagesStep(StagesAfter(inputs[..|inputs| - 1]), inputs[|inputs| - 1])
  }

  predicate AllFit(inputs: seq<Input>) {
    forall k :: 0 <= k < |inputs| ==> InputFits(inputs[k])
  }

  lemma {:induction false} StagesStayFit(inputs: seq<Input>)
    requires AllFit(inputs)
    ensures StagesFit(StagesAfter(inputs))
  {
    hide IsOlder;
    if inputs != [] {
      StagesStayFit(inputs[..|inputs| - 1]);
    }
  }

  /** The job dispatched at tick k - 3, if no squash from then on has covered it. */
  function Surviving(inputs: seq<Input>, k: nat): Option<Job>
    requires k < |inputs|
  {
    if k < 3 then None
    else
      var partial := NotYounger(inputs[k - 3].dispatch, inputs[k - 3].squash);
      var sum := NotYounger(partial, inputs[k - 2].squash);
      StrictlyOlder(StrictlyOlder(sum, inputs[k - 1].squash), inputs[k].squash)
  }

  /** No squash has covered the job dispatched three ticks before: the named instruction itself only loses results. */
  predicate Uncovered(inputs: seq<Input>, k: nat, tag: nat)
    requires 3 <= k < |inputs|
  {
    && (forall i :: k - 3 <= i < k - 1 && inputs[i].squash.Some? ==> !IsOlder(ROB_CAP, inputs[i].squash.value, tag))
    && (forall i :: k - 1 <= i <= k && inputs[i].squash.Some? ==> IsOlder(ROB_CAP, tag, inputs[i].squash.value))
  }

  /** What survives is exactly an uncovered dispatch. */
  lemma {:induction false} SurvivesExactly(inputs: seq<Input>, k: nat)
    requires 3 <= k < |inputs|
    ensures Surviving(inputs, k)
         == if inputs[k - 3].dispatch.Some? && Uncovered(inputs, k, inputs[k - 3].dispatch.value.robTag)
            then inputs[k - 3].dispatch else None
  {
    hide IsOlder;
    if inputs[k - 3].dispatch.Some? {
      var tag := inputs[k - 3].dispatch.value.robTag;
      assert Uncovered(inputs, k, tag)
        <==> && (inputs[k - 3].squash.Some? ==> !IsOlder(ROB_CAP, inputs[k - 3].squash.value, tag))
             && (inputs[k - 2].squash.Some? ==> !IsOlder(ROB_CAP, inputs[k - 2].squash.value, tag))
             && (inputs[k - 1].squash.Some? ==> IsOlder(ROB_CAP, tag, inputs[k - 1].squash.value))
             && (inputs[k].squash.Some? ==> IsOlder(ROB_CAP, tag, inputs[k].squash.value));
    }
  }

  lemma {:induction false} StagesAfterNext(inputs: seq<Input>, k: nat)
    requires k < |inputs|
    ensures StagesAfter(inputs[..k + 1]) == StagesStep(StagesAfter(inputs[..k]), inputs[k])
  {
    hide StagesStep;
    assert inputs[..k + 1][..k] == inputs[..k];
  }

  /**
    Exactly once and in order: what is delivered at tick k is the surviving dispatch of tick
    k - 3, and nothing else.
   */
  lemma {:induction false} DeliveryIsExact(inputs: seq<Input>, k: nat)
    requires AllFit(inputs) && k < |inputs|
    ensures StagesFit(StagesAfter(inputs[..k]))
    ensures Surviving(inputs, k).Some? ==> IsMultiplication(Surviving(inputs, k).value.op)
    ensures Delivered(StagesAfter(inputs[..k]), inputs[k].squash) == ResultOf(Surviving(inputs, k))
  {
    hide IsOlder, Multiply, IsMultiplication, StagesAfter;
    StagesStayFit(inputs[..k]);
    assert StagesAfter(inputs[..0]) == EMPTY_STAGES by {
      NoStages(inputs);
    }
    if k >= 1 {
      StagesAfterNext(inputs, k - 1);
    }
    if k >= 2 {
      StagesAfterNext(inputs, k - 2);
    }
    if k >= 3 {
      StagesAfterNext(inputs, k - 3);
    }
  }

  lemma NoStages(inputs: seq<Input>)
    ensures StagesAfter(inputs[..0]) == EMPTY_STAGES
  {
  }

  // ---------- The unit

  class MultiplyUnit {
    const partialProduct: array<u64>
    var partialTag: nat
    var partialOp: Operation
    var partialProductValid: bool
    var S: u64
    var C: u64
    var carryAdderValid: bool
    var scTag: nat
    var scOp: Operation
    const outputBuffer: array<MulResult>
    const slotValid: array<bool>
    ghost var stages: Stages

    ghost predicate Sizes()
      reads {}
    {
      && partialProduct.Length == ROWS && outputBuffer.Length == MUL_CAP && slotValid.Length == MUL_CAP
    }

    /** The first stage holds rows that add up to the product of its job. */
    ghost predicate PartialValid()
      reads this, partialProduct
    {
      && partialProductValid == stages.partial.Some?
      && (stages.partial.Some? ==>
            var job := stages.partial.value;
            && partialTag == job.robTag && partialOp == job.op && IsMultiplication(job.op)
            && Congruent(Sum(partialProduct[..]), Product(job.op, job.x, job.y)))
    }

    /** The second stage holds two words that do. */
    ghost predicate SumValid()
      reads this
    {
      && carryAdderValid == stages.sum.Some?
      && (stages.sum.Some? ==>
            var job := stages.sum.value;
            && scTag == job.robTag && scOp == job.op && IsMultiplication(job.op)
            && Congruent(S + C, Product(job.op, job.x, job.y)))
    }

    /** At most one slot is occupied, and it holds the finished result. */
    ghost predicate OutputValid()
      requires Sizes()
      reads this, outputBuffer, slotValid
    {
      && (stages.out.Some? ==> IsMultiplication(stages.out.value.op))
      && (stages.out.Some? <==> exists i :: 0 <= i < MUL_CAP && slotValid[i])
      && (forall i, j :: 0 <= i < MUL_CAP && 0 <= j < MUL_CAP && slotValid[i] && slotValid[j] ==> i == j)
      && (forall i :: 0 <= i < MUL_CAP && slotValid[i] ==> Some(outputBuffer[i]) == ResultOf(stages.out))
    }

    ghost predicate Valid()
      reads this, partialProduct, outputBuffer, slotValid
    {
      Sizes() && PartialValid() && SumValid() && OutputValid()
    }

    constructor ()
      ensures Valid() && fresh(partialProduct) && fresh(outputBuffer) && fresh(slotValid) && stages == EMPTY_STAGES
    {
      partialProduct := new u64[ROWS](i => 0);
      outputBuffer := new MulResult[MUL_CAP](i => MulResult(0, 0));
      slotValid := new bool[MUL_CAP](i => false);
      partialTag, partialOp, partialProductValid := 0, MUL, false;
      S, C, carryAdderValid, scTag, scOp := 0, 0, false, 0, MUL;
      stages := EMPTY_STAGES;
    }

    /** The oldest occupied slot goes over the bus, unless a squash covers it. */
    method BuildCdb(squash: Option<nat>) returns (cdb: Option<MulResult>)
      requires Valid()
      ensures StagesFit(stages) && cdb == Delivered(stages, squash)
    {
      hide IsOlder, Congruent, Sum, Product, Multiply;
      var best := -1;
      for i := 0 to MUL_CAP
        invariant -1 <= best < i
        invariant best >= 0 ==> slotValid[best]
        invariant best == -1 ==> forall j :: 0 <= j < i ==> !slotValid[j]
      {
        if slotValid[i] && (best == -1 || IsOlder(ROB_CAP, outputBuffer[i].robTag, outputBuffer[best].robTag)) {
          best := i;
        }
      }
      cdb := None;
      if best >= 0 && (squash.None? || IsOlder(ROB_CAP, outputBuffer[best].robTag, squash.value)) {
        cdb := Some(outputBuffer[best]);
      }
    }

    /** A result that went over the bus leaves its slot. */
    method Remove(robTag: nat)
      requires Sizes()
      modifies slotValid
      ensures forall i :: 0 <= i < MUL_CAP ==>
                slotValid[i] == (old(slotValid[i])
                                 && !(&& outputBuffer[i].robTag == robTag
                                      && forall j :: 0 <= j < i ==>
                                           !(old(slotValid[j]) && outputBuffer[j].robTag == robTag)))
    {
      for i := 0 to MUL_CAP
        invariant forall j :: 0 <= j < MUL_CAP ==> slotValid[j] == old(slotValid[j])
        invariant forall j :: 0 <= j < i ==> !(slotValid[j] && outputBuffer[j].robTag == robTag)
      {
        if slotValid[i] && outputBuffer[i].robTag == robTag {
          slotValid[i] := false;
          return;
        }
      }
    }

    /** The last stage adds the two words, takes the half that is asked for and puts it into the first free slot. */
    method CalculateMulRes() returns (best: nat)
      requires Sizes() && exists i :: 0 <= i < MUL_CAP && !slotValid[i]
      modifies outputBuffer, slotValid
      ensures best < MUL_CAP && !old(slotValid[best])
      ensures slotValid[..] == old(slotValid[..])[best := true]
      ensures outputBuffer[..] == old(outputBuffer[..])[best := MulResult(Extract(scOp, (S + C) % TWO_64), scTag)]
    {
      hide Extract;
      var res := (S + C) % TWO_64;
      best := 0;
      while slotValid[best]
        invariant 0 <= best < MUL_CAP && forall j :: 0 <= j < best ==> slotValid[j]
        decreases MUL_CAP - best
      {
        best := best + 1;
      }
      outputBuffer[best] := MulResult(Extract(scOp, res), scTag);
      slotValid[best] := true;
    }

    /** The squash drops finished results unless they are older, and jobs in the stages if they are younger. */
    method Flush(tag: nat)
      requires Sizes()
      modifies slotValid, `partialProductValid, `carryAdderValid
      ensures forall i :: 0 <= i < MUL_CAP ==>
                slotValid[i] == (old(slotValid[i]) && IsOlder(ROB_CAP, outputBuffer[i].robTag, tag))
      ensures partialProductValid == (old(partialProductValid) && !IsOlder(ROB_CAP, tag, partialTag))
      ensures carryAdderValid == (old(carryAdderValid) && !IsOlder(ROB_CAP, tag, scTag))
    {
      hide IsOlder;
      for i := 0 to MUL_CAP
        invariant forall j :: 0 <= j < i ==>
                    slotValid[j] == (old(slotValid[j]) && IsOlder(ROB_CAP, outputBuffer[j].robTag, tag))
        invariant forall j :: i <= j < MUL_CAP ==> slotValid[j] == old(slotValid[j])
        modifies slotValid
      {
        if slotValid[i] && !IsOlder(ROB_CAP, outputBuffer[i].robTag, tag) {
          slotValid[i] := false;
        }
      }
      if IsOlder(ROB_CAP, tag, partialTag) {
        partialProductValid := false;
      }
      if IsOlder(ROB_CAP, tag, scTag) {
        carryAdderValid := false;
      }
    }

    /** Slot nb, if any, holds the new result; every other occupied slot still holds the blocked old one. */
    ghost predicate OutputAdvanced(p: Stages, cdb: Option<MulResult>, nb: int)
      requires Sizes() && StagesFit(p)
      reads outputBuffer, slotValid
    {
      && -1 <= nb < MUL_CAP && (nb >= 0 <==> p.sum.Some?)
      && (nb >= 0 ==> slotValid[nb] && Some(outputBuffer[nb]) == ResultOf(p.sum))
      && (forall i :: 0 <= i < MUL_CAP && slotValid[i] && i != nb ==>
            cdb.None? && p.out.Some? && Some(outputBuffer[i]) == ResultOf(p.out))
    }

    /** The delivered result leaves, and the sum of the second stage becomes a result. */
    method AdvanceOutput(cdb: Option<MulResult>) returns (ghost nb: int)
      requires Valid() && StagesFit(stages) && (cdb.Some? ==> cdb == ResultOf(stages.out))
      modifies outputBuffer, slotValid
      ensures OutputAdvanced(stages, cdb, nb)
    {
      hide Congruent, Sum, Product, Multiply, Extract;
      ghost var p := stages;
      if cdb.Some? {
        Remove(cdb.value.robTag);
      }
      nb := -1;
      if carryAdderValid {
        assert !slotValid[0] || !slotValid[1];
        var best := CalculateMulRes();
        nb := best;
        SumIsProduct(p.sum.value, S, C);
      }
    }

    /** The rows of the first stage are compressed into two words. */
    method AdvanceSum()
      requires Sizes() && PartialValid()
      modifies `S, `C, `carryAdderValid, `scTag, `scOp, `partialProductValid
      ensures !partialProductValid && carryAdderValid == stages.partial.Some?
      ensures stages.partial.Some? ==>
                var job := stages.partial.value;
                && scTag == job.robTag && scOp == job.op && IsMultiplication(job.op)
                && Congruent(S + C, Product(job.op, job.x, job.y))
    {
      hide Congruent, Sum, Product;
      if partialProductValid {
        S, C := CompressRows(partialProduct[..]);
        carryAdderValid, scTag, scOp := true, partialTag, partialOp;
        ghost var job := stages.partial.value;
        CongruentTrans(S + C, Sum(partialProduct[..]), Product(job.op, job.x, job.y));
        partialProductValid := false;
      } else {
        carryAdderValid := false;
      }
    }

    /** Dispatched operands become rows. */
    method AdvancePartial(dispatch: Option<Job>)
      requires Sizes() && (dispatch.Some? ==> IsMultiplication(dispatch.value.op))
      modifies partialProduct, `partialProductValid, `partialTag, `partialOp
      ensures partialProductValid == dispatch.Some?
      ensures dispatch.Some? ==>
                var job := dispatch.value;
                && partialTag == job.robTag && partialOp == job.op
                && Congruent(Sum(partialProduct[..]), Product(job.op, job.x, job.y))
    {
      hide Congruent, Sum, Product;
      if dispatch.Some? {
        partialProductValid, partialTag, partialOp := true, dispatch.value.robTag, dispatch.value.op;
        BoothRows(dispatch.value.x, dispatch.value.y, dispatch.value.op, partialProduct);
      } else {
        partialProductValid := false;
      }
    }

    /**
      One tick. The bus has taken its result; the sum of the second stage becomes a result, the
      rows of the first stage are compressed, a dispatched pair of operands becomes rows, and a
      squash drops what it covers. The four slots never overflow.
     */
    method Tick(input: Input) returns (cdb: Option<MulResult>)
      requires Valid() && InputFits(input)
      modifies this, partialProduct, outputBuffer, slotValid
      ensures old(StagesFit(stages)) && cdb == Delivered(old(stages), input.squash)
      ensures Valid() && stages == StagesStep(old(stages), input)
    {
      hide IsOlder, Congruent, Sum, Product, Multiply;
      ghost var p := stages;
      cdb := BuildCdb(input.squash);
      ghost var nb := AdvanceOutput(cdb);
      AdvanceSum();
      AdvancePartial(input.dispatch);
      if input.squash.Some? {
        Flush(input.squash.value);
      }
      stages := StagesStep(p, input);
      assert PartialValid() && SumValid() by {
        hide OutputAdvanced, OutputValid, StrictlyOlder, ResultOf;
      }
      assert OutputValid() by {
        hide PartialValid, SumValid, NotYounger;
      }
    }
  }

  /** The two words of the second stage add up to the result. */
  lemma SumIsProduct(job: Job, S: u64, C: u64)
    requires IsMultiplication(job.op) && Congruent(S + C, Product(job.op, job.x, job.y))
    ensures Extract(job.op, (S + C) % TWO_64) == Multiply(job.op, job.x, job.y)
  {
    hide Congruent, Product, Extract, Multiply;
    var res: u64 := (S + C) % TWO_64;
    WordIsCongruent(S + C);
    CongruentTrans(res, S + C, Product(job.op, job.x, job.y));
    ExtractIsMultiply(job.op, job.x, job.y, res);
  }

  /** A whole run: what goes over the bus at each tick. */
  method Run(unit: MultiplyUnit, inputs: seq<Input>) returns (delivered: seq<Option<MulResult>>)
    requires unit.Valid() && unit.stages == EMPTY_STAGES && AllFit(inputs)
    modifies unit, unit.partialProduct, unit.outputBuffer, unit.slotValid
    ensures |delivered| == |inputs|
    ensures forall k :: 0 <= k < |inputs| ==>
              && (Surviving(inputs, k).Some? ==> IsMultiplication(Surviving(inputs, k).value.op))
              && delivered[k] == ResultOf(Surviving(inputs, k))
  {
    hide IsOlder, Multiply, StagesAfter, StagesStep, Delivered, Surviving;
    delivered := [];
    NoStages(inputs);
    for i := 0 to |inputs|
      invariant unit.Valid() && unit.stages == StagesAfter(inputs[..i]) && |delivered| == i
      invariant forall k :: 0 <= k < i ==>
                  && (Surviving(inputs, k).Some? ==> IsMultiplication(Surviving(inputs, k).value.op))
                  && delivered[k] == ResultOf(Surviving(inputs, k))
    {
      var cdb := unit.Tick(inputs[i]);
      DeliveryIsExact(inputs, i);
      StagesAfterNext(inputs, i);
      delivered := delivered + [cdb];
    }
  }
}
