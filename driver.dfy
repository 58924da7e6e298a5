/**
  What the loop driver feeds the walker: the operands of the conditional
  branches found in the loop headers, in loop order and then instruction
  order.
*/
module Driver {
  import opened Ir
  import opened DefUse
  import opened WalkFacts

  /** The operands the driver walks for one header instruction: those of a
      conditional branch, and none for anything else. */
  function BranchOperands(def: Option<Instruction>): seq<ValueId> {
    match def
    case Some(Branch(isConditional, ops)) => if isConditional then ops else []
    case _ => []
  }

  /** The operands walked for one loop header, instruction by instruction. */
  function HeaderOperands(prog: Program, header: seq<ValueId>): (r: seq<ValueId>)
    requires WellFormed(prog) && IdsIn(header, |prog|)
    ensures IdsIn(r, |prog|)
  {
    if header == [] then []
    else
      assert IdsIn(Operands(prog[header[0]].def), |prog|);
      BranchOperands(prog[header[0]].def) + HeaderOperands(prog, header[1..])
  }

  /** The operands walked for all loops, loop by loop. */
  function LoopOperands(prog: Program, loops: seq<seq<ValueId>>): (r: seq<ValueId>)
    requires WellFormed(prog) && HeadersIn(prog, loops)
    ensures IdsIn(r, |prog|)
  {
    if loops == [] then []
    else
      assert HeadersIn(prog, loops[1..]) by {
        forall i | 0 <= i < |loops[1..]| ensures IdsIn(loops[1..][i], |prog|) {
          assert loops[1..][i] == loops[i + 1];
        }
      }
      HeaderOperands(prog, loops[0]) + LoopOperands(prog, loops[1..])
  }

  /** The values a fresh analysis of one function dispatches on. */
  ghost function Reached(prog: Program, loops: seq<seq<ValueId>>): (r: seq<ValueId>)
    requires WellFormed(prog) && HeadersIn(prog, loops)
    ensures IdsIn(r, |prog|)
  {
    DispatchedAllIds(prog, LoopOperands(prog, loops), Fresh)
  }

  /** The table a fresh analysis of one function ends with: exactly the
      names targeted by a constant store or a recorded intrinsic call that
      the walk reached, each keyed by its own name. */
  function SeminalFeatures(prog: Program, loops: seq<seq<ValueId>>): (r: map<string, Variable>)
    requires WellFormed(prog) && HeadersIn(prog, loops)
    ensures Consistent(r)
    ensures forall n :: n in r <==> CreatedBy(prog, Reached(prog, loops), n)
    ensures forall n :: n in r ==> Creates(prog, n)
  {
    var ops := LoopOperands(prog, loops);
    WalkAllKeepsConsistent(prog, ops, Fresh);
    WalkAllCreatesOnlyFromCreators(prog, ops, Fresh);
    WalkAllRecordsCreators(prog, ops, Fresh);
    WalkAll(prog, ops, Fresh).variables
  }

  lemma LoopOperandsUnfold(prog: Program, loops: seq<seq<ValueId>>)
    requires WellFormed(prog) && HeadersIn(prog, loops) && loops != []
    ensures IdsIn(loops[0], |prog|) && HeadersIn(prog, loops[1..])
    ensures LoopOperands(prog, loops) == HeaderOperands(prog, loops[0]) + LoopOperands(prog, loops[1..])
  {
  }

  lemma HeaderOperandsUnfold(prog: Program, header: seq<ValueId>)
    requires WellFormed(prog) && IdsIn(header, |prog|) && header != []
    ensures header[0] < |prog| && IdsIn(header[1..], |prog|)
    ensures HeaderOperands(prog, header) == BranchOperands(prog[header[0]].def) + HeaderOperands(prog, header[1..])
  {
  }

  /** Walking the operands of `header[j..]` is walking those of
      instruction `j` and then those of `header[j + 1..]`. */
  lemma HeaderStep(prog: Program, header: seq<ValueId>, j: nat, st: State)
    requires WellFormed(prog) && IdsIn(header, |prog|) && j < |header|
    ensures IdsIn(BranchOperands(prog[header[j]].def), |prog|)
    ensures WalkAll(prog, HeaderOperands(prog, header[j..]), st)
         == WalkAll(prog, HeaderOperands(prog, header[j + 1..]), WalkAll(prog, BranchOperands(prog[header[j]].def), st))
  {
    assert header[j..][0] == header[j] && header[j..][1..] == header[j + 1..];
    assert IdsIn(Operands(prog[header[j]].def), |prog|);
    HeaderOperandsUnfold(prog, header[j..]);
    WalkAllConcat(prog, BranchOperands(prog[header[j]].def), HeaderOperands(prog, header[j + 1..]), st);
  }

  /** Walking the operands of `loops[i..]` is walking those of header `i`
      and then those of `loops[i + 1..]`. */
  lemma LoopStep(prog: Program, loops: seq<seq<ValueId>>, i: nat, st: State)
    requires WellFormed(prog) && HeadersIn(prog, loops) && i < |loops|
    ensures IdsIn(loops[i], |prog|) && HeadersIn(prog, loops[i + 1..])
    ensures WalkAll(prog, LoopOperands(prog, loops[i..]), st)
         == WalkAll(prog, LoopOperands(prog, loops[i + 1..]), WalkAll(prog, HeaderOperands(prog, loops[i]), st))
  {
    assert loops[i..][0] == loops[i] && loops[i..][1..] == loops[i + 1..];
    assert HeadersIn(prog, loops[i..]);
    LoopOperandsUnfold(prog, loops[i..]);
    WalkAllConcat(prog, HeaderOperands(prog, loops[i]), LoopOperands(prog, loops[i + 1..]), st);
  }

  /** `x` is an operand of a conditional branch that is instruction `j`
      of the header of loop `i`. */
  predicate BranchOperandOf(prog: Program, loops: seq<seq<ValueId>>, i: int, j: int, x: ValueId) {
    && 0 <= i < |loops| && 0 <= j < |loops[i]| && loops[i][j] < |prog|
    && x in BranchOperands(prog[loops[i][j]].def)
  }

  /** The operands walked for a header are exactly the operands of its
      conditional branches. */
  lemma {:induction false} HeaderOperandsMembers(prog: Program, header: seq<ValueId>)
    requires WellFormed(prog) && IdsIn(header, |prog|)
    ensures forall x: ValueId :: x in HeaderOperands(prog, header) <==>
      exists j :: 0 <= j < |header| && x in BranchOperands(prog[header[j]].def)
  {
    if header != [] {
      HeaderOperandsMembers(prog, header[1..]);
      forall x: ValueId ensures x in HeaderOperands(prog, header) <==>
        exists j :: 0 <= j < |header| && x in BranchOperands(prog[header[j]].def)
      {
        if x in HeaderOperands(prog, header[1..]) {
          var j :| 0 <= j < |header[1..]| && x in BranchOperands(prog[header[1..][j]].def);
          assert header[1..][j] == header[j + 1];
        }
        if exists j :: 0 <= j < |header| && x in BranchOperands(prog[header[j]].def) {
          var j :| 0 <= j < |header| && x in BranchOperands(prog[header[j]].def);
          if j > 0 {
            assert header[1..][j - 1] == header[j];
          }
        }
      }
    }
  }

  /** The operands walked for all loops are exactly the operands of the
      conditional branches found in the loop headers. */
  lemma {:induction false} LoopOperandsMembers(prog: Program, loops: seq<seq<ValueId>>)
    requires WellFormed(prog) && HeadersIn(prog, loops)
    ensures forall x: ValueId :: x in LoopOperands(prog, loops) <==>
      exists i, j :: BranchOperandOf(prog, loops, i, j, x)
  {
    if loops != [] {
      LoopOperandsUnfold(prog, loops);
      HeaderOperandsMembers(prog, loops[0]);
      LoopOperandsMembers(prog, loops[1..]);
      forall x: ValueId ensures x in LoopOperands(prog, loops) <==>
        exists i, j :: BranchOperandOf(prog, loops, i, j, x)
      {
        if x in HeaderOperands(prog, loops[0]) {
          var j :| 0 <= j < |loops[0]| && x in BranchOperands(prog[loops[0][j]].def);
          assert BranchOperandOf(prog, loops, 0, j, x);
        }
        if x in LoopOperands(prog, loops[1..]) {
          var i, j :| BranchOperandOf(prog, loops[1..], i, j, x);
          assert loops[1..][i] == loops[i + 1];
          assert BranchOperandOf(prog, loops, i + 1, j, x);
        }
        if exists i, j :: BranchOperandOf(prog, loops, i, j, x) {
          var i, j :| BranchOperandOf(prog, loops, i, j, x);
          if i > 0 {
            assert loops[1..][i - 1] == loops[i];
            assert BranchOperandOf(prog, loops[1..], i - 1, j, x);
          }
        }
      }
    }
  }

  /** After the driver, every operand of every conditional branch of every
      loop header has its name explored. */
  lemma AnalysisExploresBranchOperands(prog: Program, loops: seq<seq<ValueId>>, st: State)
    requires WellFormed(prog) && HeadersIn(prog, loops)
    ensures forall i, j, x: ValueId :: BranchOperandOf(prog, loops, i, j, x) ==>
      x < |prog| && prog[x].name in WalkAll(prog, LoopOperands(prog, loops), st).explored
  {
    var ops := LoopOperands(prog, loops);
    LoopOperandsMembers(prog, loops);
    forall i, j, x: ValueId | BranchOperandOf(prog, loops, i, j, x)
      ensures x < |prog| && prog[x].name in WalkAll(prog, ops, st).explored
    {
      assert x in ops;
      var k :| 0 <= k < |ops| && ops[k] == x;
    }
  }

  /** The instruction is not a conditional branch. */
  predicate NotConditionalBranch(def: Option<Instruction>) {
    match def
    case Some(Branch(isConditional, _)) => !isConditional
    case _ => true
  }

  lemma {:induction false} HeaderOperandsEmpty(prog: Program, header: seq<ValueId>)
    requires WellFormed(prog) && IdsIn(header, |prog|)
    requires forall j :: 0 <= j < |header| ==> NotConditionalBranch(prog[header[j]].def)
    ensures HeaderOperands(prog, header) == []
  {
    if header != [] {
      assert NotConditionalBranch(prog[header[0]].def);
      HeaderOperandsEmpty(prog, header[1..]);
    }
  }

  /** Loops whose headers hold no conditional branch leave the analysis
      state as it was. */
  lemma {:induction false} AnalysisSkipsOtherInstructions(prog: Program, loops: seq<seq<ValueId>>, st: State)
    requires WellFormed(prog) && HeadersIn(prog, loops)
    requires forall i, j :: 0 <= i < |loops| && 0 <= j < |loops[i]| ==> NotConditionalBranch(prog[loops[i][j]].def)
    ensures LoopOperands(prog, loops) == []
    ensures WalkAll(prog, LoopOperands(prog, loops), st) == st
  {
    if loops != [] {
      LoopOperandsUnfold(prog, loops);
      HeaderOperandsEmpty(prog, loops[0]);
      forall i, j | 0 <= i < |loops[1..]| && 0 <= j < |loops[1..][i]|
        ensures NotConditionalBranch(prog[loops[1..][i][j]].def)
      {
        assert loops[1..][i] == loops[i + 1];
      }
      AnalysisSkipsOtherInstructions(prog, loops[1..], st);
    }
  }

  /** `def` is a recorded intrinsic call whose first argument is `n`. */
  predicate CallCreates(def: Option<Instruction>, n: string) {
    def.Some? && def.value.Call? && CreatesName(def, n)
  }

  /** In well-typed IR, where no instruction takes a store as an operand,
      the driver never reaches a store: the constant-store arm of the
      walker is dead, and every entry of the table comes from a recorded
      intrinsic call. */
  lemma StoreArmUnreachable(prog: Program, loops: seq<seq<ValueId>>)
    requires WellFormed(prog) && HeadersIn(prog, loops) && NoStoreOperands(prog)
    ensures StoreFree(prog, Reached(prog, loops))
    ensures forall n :: n in SeminalFeatures(prog, loops) ==>
      exists k :: 0 <= k < |Reached(prog, loops)| && CallCreates(prog[Reached(prog, loops)[k]].def, n)
  {
    var ops := LoopOperands(prog, loops);
    var d := Reached(prog, loops);
    LoopOperandsMembers(prog, loops);
    forall k | 0 <= k < |ops| ensures !IsStore(prog[ops[k]].def) {
      var x := ops[k];
      assert x in ops;
      var i, j :| BranchOperandOf(prog, loops, i, j, x);
      var ds := Operands(prog[loops[i][j]].def);
      var m :| 0 <= m < |ds| && ds[m] == x;
    }
    WalkAllDispatchesNoStore(prog, ops, Fresh);
    forall n | n in SeminalFeatures(prog, loops)
      ensures exists k :: 0 <= k < |d| && CallCreates(prog[d[k]].def, n)
    {
      var k :| 0 <= k < |d| && CreatesName(prog[d[k]].def, n);
      assert !IsStore(prog[d[k]].def);
      assert CallCreates(prog[d[k]].def, n);
    }
  }

  /** In well-typed IR a function without calls ends with an empty table,
      whatever constant stores it holds. */
  lemma NoCallsNoFeatures(prog: Program, loops: seq<seq<ValueId>>)
    requires WellFormed(prog) && HeadersIn(prog, loops) && NoStoreOperands(prog)
    requires forall i :: 0 <= i < |prog| ==> !(prog[i].def.Some? && prog[i].def.value.Call?)
    ensures SeminalFeatures(prog, loops) == map[]
  {
    StoreArmUnreachable(prog, loops);
    assert forall n :: n !in SeminalFeatures(prog, loops);
  }
}
