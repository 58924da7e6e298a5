/**
  The backward def-use walk as functions over an explicit analysis state:
  the table of influential variables and the set of explored value names.
  `Walk` is one call of the walker on one value, `WalkAll` walks a list of
  values left to right, threading the state through.
*/
module DefUse {
  import opened Ir
  import opened Text

  /** An influential variable: the name of its storage location and the
      most recent source line at which the walk saw it touched. */
  datatype Variable = Variable(name: string, line: int)

  /** The two pieces of mutable bookkeeping of one analysis run. */
  datatype State = State(variables: map<string, Variable>, explored: set<string>)

  /** The state of a freshly created analysis. */
  const Fresh := State(map[], {})

  /** The marker an intrinsic's callee name is searched for. */
  const INTRINSIC_MARKER := "llvm."

  /** The names of the program not yet explored; the walk's measure. */
  function Unexplored(prog: Program, explored: set<string>): nat {
    |Names(prog) - explored|
  }

  /** A call updates the table only when its callee is resolved, is an
      intrinsic whose name contains the marker, and the call has a first
      argument to name the variable. */
  predicate RecordsCall(callee: Option<Callee>, argNames: seq<string>) {
    && callee.Some?
    && callee.value.isIntrinsic
    && Contains(callee.value.name, INTRINSIC_MARKER)
    && |argNames| > 0
  }

  /** The table bookkeeping of an instruction that is not walked through. */
  function TableUpdate(variables: map<string, Variable>, inst: Instruction): map<string, Variable> {
    match inst
    case Store(pointer, isConstInt, line) =>
      if isConstInt then variables[pointer := Variable(pointer, line)] else variables
    case Load(pointer, line) =>
      if pointer in variables then variables[pointer := variables[pointer].(line := line)] else variables
    case Call(callee, args, line) =>
      if RecordsCall(callee, args) then variables[args[0] := Variable(args[0], line)] else variables
    case _ => variables
  }

  lemma UnexploredMonotone(prog: Program, a: set<string>, b: set<string>)
    requires a <= b
    ensures Unexplored(prog, b) <= Unexplored(prog, a)
  {
    var sa, sb := Names(prog) - a, Names(prog) - b;
    assert sa == sb + (sa - sb);
  }

  lemma UnexploredShrinks(prog: Program, a: set<string>, b: set<string>, name: string)
    requires name in Names(prog) && name !in a && a + {name} <= b
    ensures Unexplored(prog, b) < Unexplored(prog, a)
  {
    var sa := Names(prog) - a;
    UnexploredMonotone(prog, a + {name}, b);
    assert Names(prog) - (a + {name}) == sa - {name};
    assert sa == (sa - {name}) + {name};
  }

  lemma NameInNames(prog: Program, v: ValueId)
    requires v < |prog|
    ensures prog[v].name in Names(prog)
  {
  }

  /** One call of the walker on value `v`. */
  function Walk(prog: Program, v: ValueId, st: State): (r: State)
    requires WellFormed(prog) && v < |prog|
    ensures st.explored <= r.explored
    ensures prog[v].name in r.explored
    ensures st.variables.Keys <= r.variables.Keys
    decreases Unexplored(prog, st.explored), 0
  {
    var name := prog[v].name;
    if name in st.explored then st
    else
      var st1 := st.(explored := st.explored + {name});
      match prog[v].def
      case None => st1
      case Some(inst) =>
        if inst.BinaryOp? then
          NameInNames(prog, v);
          UnexploredShrinks(prog, st.explored, st1.explored, name);
          assert IdsIn(Operands(prog[v].def), |prog|);
          WalkAll(prog, inst.operands, st1)
        else
          st1.(variables := TableUpdate(st1.variables, inst))
  }

  /** The walker called on each of `ops` in turn. */
  function WalkAll(prog: Program, ops: seq<ValueId>, st: State): (r: State)
    requires WellFormed(prog) && IdsIn(ops, |prog|)
    ensures st.explored <= r.explored
    ensures forall k :: 0 <= k < |ops| ==> prog[ops[k]].name in r.explored
    ensures st.variables.Keys <= r.variables.Keys
    decreases Unexplored(prog, st.explored), |ops|
  {
    if ops == [] then st
    else
      var st1 := Walk(prog, ops[0], st);
      UnexploredMonotone(prog, st.explored, st1.explored);
      WalkAll(prog, ops[1..], st1)
  }

  lemma WalkAllFirst(prog: Program, ops: seq<ValueId>, st: State)
    requires WellFormed(prog) && IdsIn(ops, |prog|) && ops != []
    ensures ops[0] < |prog| && IdsIn(ops[1..], |prog|)
    ensures WalkAll(prog, ops, st) == WalkAll(prog, ops[1..], Walk(prog, ops[0], st))
  {
  }
}
