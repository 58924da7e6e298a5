/**
  Small functions analysed end to end: one loop whose header ends in a
  conditional branch, and the table a fresh analysis ends with. Every
  program is well typed: no store is an operand, and every call used as
  an operand returns a value.
*/
module Scenarios {
  import opened Ir
  import opened DefUse
  import opened WalkFacts
  import opened Driver

  const IS_CONSTANT := Some(Callee("llvm.is.constant.p0", true))

  /** The branch condition is the `and` of an intrinsic call at line 12
      whose pointer argument is `buf`, named `callName`, and of a load from
      `buf` at line 14, named `loadName`. */
  function CallLoadProgram(callName: string, loadName: string): Program {
    [ Value(callName, Some(Call(IS_CONSTANT, ["buf"], 12))),
      Value(loadName, Some(Load("buf", 14))),
      Value("cond", Some(BinaryOp([0, 1]))),
      Value("for.body", None),
      Value("for.end", None),
      Value("", Some(Branch(true, [2, 3, 4]))) ]
  }

  /** The branch condition is a call at line 12 whose first argument is
      `buf`. */
  function CallProgram(callee: Option<Callee>): Program {
    [ Value("t", Some(Call(callee, ["buf"], 12))),
      Value("for.body", None),
      Value("for.end", None),
      Value("", Some(Branch(true, [0, 1, 2]))) ]
  }

  /** `tmp`, never stored, is loaded twice into the branch condition. */
  function LoadOnlyProgram(): Program {
    [ Value("a", Some(Load("tmp", 3))),
      Value("b", Some(Load("tmp", 4))),
      Value("cond", Some(BinaryOp([0, 1]))),
      Value("for.end", None),
      Value("", Some(Branch(true, [2, 3]))) ]
  }

  /** `i` is stored the constant 0 at line 5 and loaded at line 8 into the
      branch condition; the store itself is no operand of anything. */
  function StoreLoadProgram(): Program {
    [ Value("", Some(Store("i", true, 5))),
      Value("ld", Some(Load("i", 8))),
      Value("one", None),
      Value("cond", Some(BinaryOp([1, 2]))),
      Value("for.body", None),
      Value("for.end", None),
      Value("", Some(Branch(true, [3, 4, 5]))) ]
  }

  lemma CallLoadIsWellFormed(callName: string, loadName: string)
    ensures WellFormed(CallLoadProgram(callName, loadName))
    ensures HeadersIn(CallLoadProgram(callName, loadName), [[5]])
    ensures LoopOperands(CallLoadProgram(callName, loadName), [[5]]) == [2, 3, 4]
  {
    var prog := CallLoadProgram(callName, loadName);
    assert WellFormed(prog) by {
      forall i | 0 <= i < |prog| ensures IdsIn(Operands(prog[i].def), |prog|) {
      }
    }
    LoopOperandsUnfold(prog, [[5]]);
    HeaderOperandsUnfold(prog, [5]);
    assert [[5]][1..] == [] && [5][1..] == [];
  }

  /** The walk of the condition: the call records `buf` at line 12, then
      the load refreshes it to line 14 unless its name was explored. */
  lemma CallLoadWalk(callName: string, loadName: string, s2: State)
    requires callName !in {"cond", "for.body", "for.end"} && loadName !in {"cond", "for.body", "for.end"}
    requires WellFormed(CallLoadProgram(callName, loadName))
    requires s2 == Walk(CallLoadProgram(callName, loadName), 1,
      State(map["buf" := Variable("buf", 12)], {"cond", callName}))
    ensures WalkAll(CallLoadProgram(callName, loadName), [2, 3, 4], Fresh).variables == s2.variables
  {
    var prog := CallLoadProgram(callName, loadName);
    assert "llvm.is.constant.p0"[..5] == INTRINSIC_MARKER;
    var s0 := State(map[], {"cond"});
    var s1 := State(map["buf" := Variable("buf", 12)], {"cond", callName});
    assert Walk(prog, 0, s0) == s1;
    WalkAllFirst(prog, [0, 1], s0);
    WalkAllFirst(prog, [1], s1);
    WalkBinaryOp(prog, 2, Fresh, [0, 1]);
    assert Fresh.(explored := Fresh.explored + {"cond"}) == s0;
    assert [0, 1][1..] == [1] && [1][1..] == [];
    assert Walk(prog, 2, Fresh) == s2;
    WalkAllFirst(prog, [2, 3, 4], Fresh);
    WalkAllFirst(prog, [3, 4], s2);
    var s3 := Walk(prog, 3, s2);
    WalkDeadEnd(prog, 3, s2);
    WalkDeadEnd(prog, 4, s3);
    WalkAllFirst(prog, [4], s3);
    assert [3, 4][1..] == [4] && [4][1..] == [];
  }

  /** The intrinsic call records `buf`, and the later named load refreshes
      its line. */
  lemma LoadRefreshesRecordedLine()
    ensures SeminalFeatures(CallLoadProgram("t", "ld"), [[5]]) == map["buf" := Variable("buf", 14)]
  {
    CallLoadIsWellFormed("t", "ld");
    var s1 := State(map["buf" := Variable("buf", 12)], {"cond", "t"});
    var s2 := Walk(CallLoadProgram("t", "ld"), 1, s1);
    assert s2.variables == map["buf" := Variable("buf", 14)];
    CallLoadWalk("t", "ld", s2);
  }

  /** The call and the load are both unnamed, as numbered values are: once
      the call's name `""` is explored the load is skipped, and the call's
      line stays. */
  lemma UnnamedLoadIsSkipped()
    ensures SeminalFeatures(CallLoadProgram("", ""), [[5]]) == map["buf" := Variable("buf", 12)]
  {
    CallLoadIsWellFormed("", "");
    var s1 := State(map["buf" := Variable("buf", 12)], {"cond", ""});
    var s2 := Walk(CallLoadProgram("", ""), 1, s1);
    assert s2 == s1;
    CallLoadWalk("", "", s2);
  }

  /** An intrinsic call records its first argument with the call's line. */
  lemma IntrinsicCallRecordsFirstArgument()
    ensures SeminalFeatures(CallProgram(IS_CONSTANT), [[3]]) == map["buf" := Variable("buf", 12)]
  {
    var prog := CallProgram(IS_CONSTANT);
    assert WellFormed(prog) by {
      forall i | 0 <= i < |prog| ensures IdsIn(Operands(prog[i].def), |prog|) {
      }
    }
    assert LoopOperands(prog, [[3]]) == [0, 1, 2];
    assert "llvm.is.constant.p0"[..5] == INTRINSIC_MARKER;
    var s1 := Walk(prog, 0, Fresh);
    assert s1 == State(map["buf" := Variable("buf", 12)], {"t"});
    WalkAllFirst(prog, [0, 1, 2], Fresh);
    WalkAllFirst(prog, [1, 2], s1);
  }

  /** An indirect call, with no callee to inspect, records nothing. */
  lemma IndirectCallIsSkipped()
    ensures SeminalFeatures(CallProgram(None), [[3]]) == map[]
  {
    var prog := CallProgram(None);
    assert WellFormed(prog) by {
      forall i | 0 <= i < |prog| ensures IdsIn(Operands(prog[i].def), |prog|) {
      }
    }
    assert LoopOperands(prog, [[3]]) == [0, 1, 2];
    var s1 := Walk(prog, 0, Fresh);
    assert s1 == State(map[], {"t"});
    WalkAllFirst(prog, [0, 1, 2], Fresh);
    WalkAllFirst(prog, [1, 2], s1);
  }

  /** A variable that is only ever loaded never enters the table. */
  lemma LoadOnlyVariableIsNotRecorded()
    ensures "tmp" !in SeminalFeatures(LoadOnlyProgram(), [[4]])
  {
    var prog := LoadOnlyProgram();
    assert WellFormed(prog) by {
      forall i | 0 <= i < |prog| ensures IdsIn(Operands(prog[i].def), |prog|) {
      }
    }
    assert !Creates(prog, "tmp") by {
      forall i | 0 <= i < |prog| ensures !CreatesName(prog[i].def, "tmp") {
      }
    }
  }

  lemma StoreLoadIsWellTyped()
    ensures WellFormed(StoreLoadProgram()) && NoStoreOperands(StoreLoadProgram())
    ensures HeadersIn(StoreLoadProgram(), [[6]])
  {
    var prog := StoreLoadProgram();
    forall i | 0 <= i < |prog|
      ensures IdsIn(Operands(prog[i].def), |prog|) && StoreFree(prog, Operands(prog[i].def))
    {
    }
  }

  /** A constant store that feeds the condition only through memory is
      never reached, so even the load of its location records nothing. */
  lemma StoredVariableIsNotRecorded()
    ensures SeminalFeatures(StoreLoadProgram(), [[6]]) == map[]
  {
    StoreLoadIsWellTyped();
    var prog := StoreLoadProgram();
    assert forall i :: 0 <= i < |prog| ==> !(prog[i].def.Some? && prog[i].def.value.Call?);
    NoCallsNoFeatures(prog, [[6]]);
  }
}
