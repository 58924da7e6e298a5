/**
  The analysis object: its two fields are updated in place by the walker,
  and the loop driver feeds it the operands of every conditional branch
  found in the loop headers.
*/
module SeminalInputFeatures {
  import opened Ir
  import opened Text
  import opened DefUse
  import opened WalkFacts
  import opened Driver

  class SeminalInputFeaturesAnalysis {
    /** Influential variables, keyed by location name. */
    var variables: map<string, Variable>
    /** Names of the values already handed to the walker. */
    var exploredPoints: set<string>

    /** The object's fields as an analysis state. */
    function Current(): State
      reads this
    {
      State(variables, exploredPoints)
    }

    constructor ()
      ensures Current() == Fresh
    {
      variables := map[];
      exploredPoints := {};
    }

    /** Runs the analysis over the given loop headers. */
    method Run(prog: Program, loops: seq<seq<ValueId>>)
      requires WellFormed(prog) && HeadersIn(prog, loops)
      modifies this
      ensures Current() == WalkAll(prog, LoopOperands(prog, loops), old(Current()))
    {
      AnalyzeLoops(prog, loops);
    }

    /** Walks every operand of every conditional branch of every loop
        header, in loop order and then instruction order. */
    method AnalyzeLoops(prog: Program, loops: seq<seq<ValueId>>)
      requires WellFormed(prog) && HeadersIn(prog, loops)
      modifies this
      ensures Current() == WalkAll(prog, LoopOperands(prog, loops), old(Current()))
    {
      ghost var final := WalkAll(prog, LoopOperands(prog, loops), Current());
      var i := 0;
      while i < |loops|
        invariant 0 <= i <= |loops|
        invariant WalkAll(prog, LoopOperands(prog, loops[i..]), Current()) == final
      {
        LoopStep(prog, loops, i, Current());
        AnalyzeHeader(prog, loops[i]);
        i := i + 1;
      }
      assert loops[i..] == [];
    }

    /** The body of the loop over loops: walks the operands of every
        conditional branch among the header's instructions. */
    method AnalyzeHeader(prog: Program, header: seq<ValueId>)
      requires WellFormed(prog) && IdsIn(header, |prog|)
      modifies this
      ensures Current() == WalkAll(prog, HeaderOperands(prog, header), old(Current()))
    {
      ghost var final := WalkAll(prog, HeaderOperands(prog, header), Current());
      var j := 0;
      while j < |header|
        invariant 0 <= j <= |header|
        invariant WalkAll(prog, HeaderOperands(prog, header[j..]), Current()) == final
      {
        HeaderStep(prog, header, j, Current());
        var def := prog[header[j]].def;
        if def.Some? && def.value.Branch? && def.value.isConditional {
          assert BranchOperands(def) == def.value.operands;
          WalkBranchOperands(prog, def.value.operands);
        } else {
          assert BranchOperands(def) == [];
        }
        j := j + 1;
      }
      assert header[j..] == [];
    }

    /** The body of the loop over header instructions, for a conditional
        branch: walks its operands in order. */
    method WalkBranchOperands(prog: Program, ops: seq<ValueId>)
      requires WellFormed(prog) && IdsIn(ops, |prog|)
      modifies this
      ensures Current() == WalkAll(prog, ops, old(Current()))
    {
      ghost var final := WalkAll(prog, ops, Current());
      var k := 0;
      while k < |ops|
        invariant 0 <= k <= |ops|
        invariant WalkAll(prog, ops[k..], Current()) == final
      {
        assert ops[k..][1..] == ops[k + 1..];
        DefUseAnalysis(prog, ops[k]);
        k := k + 1;
      }
    }

    /** Walks the definitions of `v` backwards, once per value name. */
    method DefUseAnalysis(prog: Program, v: ValueId)
      requires WellFormed(prog) && v < |prog|
      modifies this
      ensures Current() == Walk(prog, v, old(Current()))
      decreases Unexplored(prog, exploredPoints)
    {
      var name := prog[v].name;
      if name in exploredPoints {
        return;
      }
      exploredPoints := exploredPoints + {name};
      match prog[v].def {
        case None =>
        case Some(inst) =>
          match inst {
            case Store(pointer, isConstInt, line) =>
              if isConstInt {
                variables := variables[pointer := Variable(pointer, line)];
              }
            case Load(pointer, line) =>
              if pointer in variables {
                variables := variables[pointer := variables[pointer].(line := line)];
              }
            case BinaryOp(ops) =>
              ghost var entry := Current();
              assert IdsIn(Operands(prog[v].def), |prog|);
              NameInNames(prog, v);
              var k := 0;
              while k < |ops|
                invariant 0 <= k <= |ops|
                invariant entry.explored <= exploredPoints
                invariant WalkAll(prog, ops[k..], Current()) == WalkAll(prog, ops, entry)
              {
                assert ops[k..][1..] == ops[k + 1..];
                UnexploredShrinks(prog, old(exploredPoints), exploredPoints, name);
                DefUseAnalysis(prog, ops[k]);
                k := k + 1;
              }
            case Call(callee, args, line) =>
              // an indirect call has no callee to inspect, and an intrinsic
              // without arguments names no variable: both are skipped
              if callee.Some? && callee.value.isIntrinsic {
                if Contains(callee.value.name, INTRINSIC_MARKER) && |args| > 0 {
                  variables := variables[args[0] := Variable(args[0], line)];
                }
              }
            case _ =>
          }
      }
    }
  }

  /** Analyses one function with a fresh analysis object and hands back its
      table of influential variables. */
  method Analyze(prog: Program, loops: seq<seq<ValueId>>) returns (table: map<string, Variable>)
    requires WellFormed(prog) && HeadersIn(prog, loops)
    ensures table == SeminalFeatures(prog, loops)
  {
    var analysis := new SeminalInputFeaturesAnalysis();
    analysis.Run(prog, loops);
    table := analysis.variables;
  }
}
