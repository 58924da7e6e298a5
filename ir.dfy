/**
  The slice of a compiler's intermediate representation that the def-use
  walker looks at. A function body is a `Program`: a sequence of values,
  where an instruction refers to the values it uses by their position in
  the sequence (so def-use graphs may share nodes and contain cycles).
  Only the facts the walker inspects are kept for each instruction kind.
*/
module Ir {

  datatype Option<+T> = None | Some(value: T)

  /** Position of a value in its `Program`. */
  type ValueId = nat

  /** A resolved call target: its symbol name and whether the host
      compiler classifies it as an intrinsic. */
  datatype Callee = Callee(name: string, isIntrinsic: bool)

  datatype Instruction =
      /** A store to the location named `pointerName`; `storesConstantInt`
          says whether the stored value is an integer constant. */
    | Store(pointerName: string, storesConstantInt: bool, line: int)
      /** A load from the location named `pointerName`. */
    | Load(pointerName: string, line: int)
      /** An arithmetic or logical binary operator over its operands. */
    | BinaryOp(operands: seq<ValueId>)
      /** A call; `callee` is `None` for an indirect call, and only the
          names of the arguments are kept. */
    | Call(callee: Option<Callee>, argNames: seq<string>, line: int)
      /** A branch; a conditional one has the condition and both target
          blocks among its operands. */
    | Branch(isConditional: bool, operands: seq<ValueId>)
      /** Every other instruction kind (compares, phis, casts, ...). */
    | Other

  /** A value has a name ("" when it is unnamed) and, when it is an
      instruction, the instruction that defines it. Constants, function
      arguments and basic blocks have `def == None`. */
  datatype Value = Value(name: string, def: Option<Instruction>)

  type Program = seq<Value>

  /** Every id in `ids` denotes a value of a program of `n` values. */
  predicate IdsIn(ids: seq<ValueId>, n: nat) {
    forall k :: 0 <= k < |ids| ==> ids[k] < n
  }

  /** The operand ids of a definition that refers to other values. */
  function Operands(def: Option<Instruction>): seq<ValueId> {
    match def
    case Some(BinaryOp(ops)) => ops
    case Some(Branch(_, ops)) => ops
    case _ => []
  }

  /** Every operand of every instruction is a value of the program. */
  predicate WellFormed(prog: Program) {
    forall i :: 0 <= i < |prog| ==> IdsIn(Operands(prog[i].def), |prog|)
  }

  predicate IsStore(def: Option<Instruction>) {
    def.Some? && def.value.Store?
  }

  /** None of `ids` denotes a store. */
  predicate StoreFree(prog: Program, ids: seq<ValueId>) {
    forall k :: 0 <= k < |ids| && ids[k] < |prog| ==> !IsStore(prog[ids[k]].def)
  }

  /** A store produces no value, so in well-typed IR no instruction takes
      a store as an operand. */
  predicate NoStoreOperands(prog: Program) {
    forall i :: 0 <= i < |prog| ==> StoreFree(prog, Operands(prog[i].def))
  }

  /** Every loop header lists instructions of the program. */
  predicate HeadersIn(prog: Program, loops: seq<seq<ValueId>>) {
    forall i :: 0 <= i < |loops| ==> IdsIn(loops[i], |prog|)
  }

  /** The finite universe of names carried by the program's values. */
  function Names(prog: Program): set<string> {
    set i | 0 <= i < |prog| :: prog[i].name
  }
}
