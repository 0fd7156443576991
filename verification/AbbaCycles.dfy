/** Pairing the blocks of a present A/B run into cycles (harness/present_ab_read.py, cycles_of and arm_delta). */
module AbbaCycles {
  import opened Wrappers

  datatype Arm = Sync | Async

  /** One block line of the log; `value` is the field the arms are compared on. */
  datatype Record = Record(block: nat, arm: Arm, value: real)

  /** The arms of four records are those of `ARM_ORDER`. */
  predicate InArmOrder(quad: seq<Record>) {
    |quad| == 4 && quad[0].arm == Sync && quad[1].arm == Async && quad[2].arm == Async && quad[3].arm == Sync
  }

  /** The last record of a block, which is the one a dictionary keyed by block keeps. */
  function LastOf(blocks: seq<Record>, index: nat): (r: Option<Record>)
    ensures r.Some? ==> r.value in blocks && r.value.block == index
    ensures r == None ==> forall b :: b in blocks ==> b.block != index
  {
    if blocks == [] then None
    else
      var last := blocks[|blocks| - 1];
      if last.block == index then Some(last) else LastOf(blocks[..|blocks| - 1], index)
  }

  function StartOf(quad: seq<Record>): nat { if quad == [] then 0 else quad[0].block }

  /** Four consecutive blocks from a multiple of four on, run in the order A B B A. */
  predicate IsCycle(blocks: seq<Record>, quad: seq<Record>) {
    && InArmOrder(quad) && StartOf(quad) % 4 == 0
    && forall i: nat :: i < 4 ==> LastOf(blocks, StartOf(quad) + i) == Some(quad[i])
  }

  method ByIndex(blocks: seq<Record>) returns (table: map<nat, Record>, top: int)
    ensures IsTable(blocks, table)
    ensures forall k :: k in table ==> k <= top
    ensures top == -1 || top in table
  {
    table, top := map[], -1;
    for i := 0 to |blocks|
      invariant IsTable(blocks[..i], table)
      invariant forall k :: k in table ==> k <= top
      invariant top == -1 || top in table
    {
      assert blocks[..i + 1][..i] == blocks[..i];
      table := table[blocks[i].block := blocks[i]];
      if top < blocks[i].block { top := blocks[i].block; }
    }
    assert blocks[..|blocks|] == blocks;
  }

  /** The cycles of a log: all of them, in order, and nothing else. */
  method CyclesOf(blocks: seq<Record>) returns (out: seq<seq<Record>>)
    ensures forall quad: seq<Record> :: quad in out <==> IsCycle(blocks, quad)
    ensures forall i, j :: 0 <= i < j < |out| ==> StartOf(out[i]) + 4 <= StartOf(out[j])
  {
    hide IsCycle, LastOf, StartOf;
    var table, top := ByIndex(blocks);
    out := [];
    var start := 0;
    while start < top + 1
      invariant start % 4 == 0
      invariant forall quad: seq<Record> :: quad in out <==> IsCycle(blocks, quad) && StartOf(quad) < start
      invariant forall i :: 0 <= i < |out| ==> StartOf(out[i]) + 4 <= start
      invariant forall i, j :: 0 <= i < j < |out| ==> StartOf(out[i]) + 4 <= StartOf(out[j])
      decreases top + 1 - start
    {
      if start in table && start + 1 in table && start + 2 in table && start + 3 in table {
        var quad := [table[start], table[start + 1], table[start + 2], table[start + 3]];
        CycleAt(blocks, start, quad);
        if quad[0].arm == Sync && quad[1].arm == Async && quad[2].arm == Async && quad[3].arm == Sync {
          out := out + [quad];
        }
      }
      forall quad: seq<Record> | IsCycle(blocks, quad) && start <= StartOf(quad) < start + 4 ensures quad in out {
        Aligned(blocks, quad, start);
        CycleIsInTable(blocks, quad, table);
      }
      start := start + 4;
    }
    forall quad: seq<Record> | IsCycle(blocks, quad) ensures StartOf(quad) < start {
      CycleIsInTable(blocks, quad, table);
    }
  }

  /** What stands at a start is the only thing that can be a cycle there. */
  lemma CycleAt(blocks: seq<Record>, start: nat, quad: seq<Record>)
    requires |quad| == 4 && start % 4 == 0
    requires LastOf(blocks, start) == Some(quad[0]) && LastOf(blocks, start + 1) == Some(quad[1])
    requires LastOf(blocks, start + 2) == Some(quad[2]) && LastOf(blocks, start + 3) == Some(quad[3])
    ensures StartOf(quad) == start && (IsCycle(blocks, quad) <==> InArmOrder(quad))
    ensures forall other :: IsCycle(blocks, other) && StartOf(other) == start ==> other == quad
  {
    forall other | IsCycle(blocks, other) && StartOf(other) == start ensures other == quad {
      assert LastOf(blocks, start + 0) == Some(other[0]) && LastOf(blocks, start + 1) == Some(other[1]);
      assert LastOf(blocks, start + 2) == Some(other[2]) && LastOf(blocks, start + 3) == Some(other[3]);
    }
    if InArmOrder(quad) {
      forall i: nat | i < 4 ensures LastOf(blocks, start + i) == Some(quad[i]) {
        assert i == 0 || i == 1 || i == 2 || i == 3;
      }
    }
  }

  ghost predicate IsTable(blocks: seq<Record>, table: map<nat, Record>) {
    forall k: nat :: if k in table then LastOf(blocks, k) == Some(table[k]) else LastOf(blocks, k) == None
  }

  lemma CycleIsInTable(blocks: seq<Record>, quad: seq<Record>, table: map<nat, Record>)
    requires IsTable(blocks, table) && IsCycle(blocks, quad)
    ensures var start := StartOf(quad);
      start in table && start + 1 in table && start + 2 in table && start + 3 in table
  {
    var start := StartOf(quad);
    assert LastOf(blocks, start + 0).Some? && LastOf(blocks, start + 1).Some?;
    assert LastOf(blocks, start + 2).Some? && LastOf(blocks, start + 3).Some?;
  }

  lemma Aligned(blocks: seq<Record>, quad: seq<Record>, start: nat)
    requires IsCycle(blocks, quad) && start % 4 == 0
    ensures StartOf(quad) <= start || StartOf(quad) >= start + 4
  {
  }

  // ---------------------------------------------------------------- a trimmed log

  ghost predicate Distinct(blocks: seq<Record>) {
    forall i, j :: 0 <= i < j < |blocks| ==> blocks[i].block != blocks[j].block
  }

  lemma {:induction false} OnlyOf(blocks: seq<Record>, b: Record)
    requires Distinct(blocks) && b in blocks
    ensures LastOf(blocks, b.block) == Some(b)
  {
    var last := blocks[|blocks| - 1];
    if last != b {
      var i :| 0 <= i < |blocks| && blocks[i] == b;
      assert blocks[..|blocks| - 1][i] == b;
      OnlyOf(blocks[..|blocks| - 1], b);
    }
  }

  /** A log that lost lines cannot re-phase the pattern: what still pairs, pairs as it did. */
  lemma TrimmedKeepsPhase(blocks: seq<Record>, trimmed: seq<Record>, quad: seq<Record>)
    requires Distinct(blocks) && forall b :: b in trimmed ==> b in blocks
    requires IsCycle(trimmed, quad)
    ensures IsCycle(blocks, quad)
  {
    forall i: nat | i < 4 ensures LastOf(blocks, StartOf(quad) + i) == Some(quad[i]) {
      assert LastOf(trimmed, StartOf(quad) + i) == Some(quad[i]);
      OnlyOf(blocks, quad[i]);
    }
  }

  // ---------------------------------------------------------------- the difference of the arms

  function ValuesOf(quad: seq<Record>, arm: Arm): seq<real> {
    if quad == [] then []
    else (if quad[0].arm == arm then [quad[0].value] else []) + ValuesOf(quad[1..], arm)
  }

  function Total(values: seq<real>): real {
    if values == [] then 0.0 else values[0] + Total(values[1..])
  }

  function Mean(values: seq<real>): real
    requires values != []
  {
    Total(values) / |values| as real
  }

  lemma ArmsOfCycle(quad: seq<Record>)
    requires InArmOrder(quad)
    ensures ValuesOf(quad, Sync) == [quad[0].value, quad[3].value]
    ensures ValuesOf(quad, Async) == [quad[1].value, quad[2].value]
  {
    var tail := quad[3..];
    assert tail[1..] == [] && quad[2..][1..] == tail && quad[1..][1..] == quad[2..];
    assert ValuesOf(tail, Sync) == [quad[3].value] && ValuesOf(tail, Async) == [];
    assert ValuesOf(quad[2..], Async) == [quad[2].value] + ValuesOf(tail, Async);
    assert ValuesOf(quad[2..], Sync) == ValuesOf(tail, Sync);
  }

  /** `arm_delta` on a cycle. */
  function ArmDelta(quad: seq<Record>): (delta: real)
    requires InArmOrder(quad)
  {
    ArmsOfCycle(quad);
    Mean(ValuesOf(quad, Async)) - Mean(ValuesOf(quad, Sync))
  }

  lemma MeanOfTwo(a: real, b: real)
    ensures Mean([a, b]) == (a + b) / 2.0
  {
    var one, two := [b], [a, b];
    assert one[1..] == [] && two[1..] == one;
    assert Total(one) == b + Total([]) && Total(two) == a + Total(one);
  }

  /**
   * With the arms differing by `effect` on top of some trend, the delta is the effect exactly when the
   * trend adds as much to the inner blocks as to the outer ones.
   */
  lemma DeltaIsTheEffectIff(quad: seq<Record>, trend: seq<real>, effect: real)
    requires InArmOrder(quad) && |trend| == 4
    requires forall i: nat :: i < 4 ==> quad[i].value == trend[i] + if quad[i].arm == Async then effect else 0.0
    ensures ArmDelta(quad) == effect <==> trend[1] + trend[2] == trend[0] + trend[3]
  {
    ArmsOfCycle(quad);
    MeanOfTwo(quad[1].value, quad[2].value);
    MeanOfTwo(quad[0].value, quad[3].value);
  }

  /** Any linear drift cancels. */
  lemma LinearDriftCancels(quad: seq<Record>, base: real, drift: real, effect: real)
    requires InArmOrder(quad)
    requires forall i: nat :: i < 4 ==>
      quad[i].value == base + drift * i as real + if quad[i].arm == Async then effect else 0.0
    ensures ArmDelta(quad) == effect
  {
    DeltaIsTheEffectIff(quad, [base, base + drift, base + 2.0 * drift, base + 3.0 * drift], effect);
  }

  /** A step between two blocks of the cycle cancels only in the middle of it. */
  lemma StepCancelsOnlyInTheMiddle(quad: seq<Record>, before: nat, step: real, effect: real)
    requires InArmOrder(quad)
    requires 1 <= before <= 3 && step != 0.0
    requires forall i: nat :: i < 4 ==>
      quad[i].value == (if i < before then 0.0 else step) + if quad[i].arm == Async then effect else 0.0
    ensures ArmDelta(quad) == effect <==> before == 2
  {
    DeltaIsTheEffectIff(quad, seq(4, i => if i < before then 0.0 else step), effect);
  }
}
