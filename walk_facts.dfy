/**
  What one call of the walker does, instruction kind by instruction kind,
  and what every walk guarantees about the table and the explored names.
*/
module WalkFacts {
  import opened Ir
  import opened Text
  import opened DefUse

  /** Every entry is keyed by the name it records. */
  predicate Consistent(variables: map<string, Variable>) {
    forall n :: n in variables ==> variables[n].name == n
  }

  /** Walking `def` may insert an entry for `n`: a store of an integer
      constant to `n`, or a recorded intrinsic call whose first argument
      is `n`. */
  predicate CreatesName(def: Option<Instruction>, n: string) {
    match def
    case Some(Store(pointer, isConstInt, _)) => isConstInt && pointer == n
    case Some(Call(callee, args, _)) => RecordsCall(callee, args) && args[0] == n
    case _ => false
  }

  /** Walking `def` may change the entry for `n`: it creates it, or it is
      a load from `n`. */
  predicate TouchesName(def: Option<Instruction>, n: string) {
    CreatesName(def, n) || (def.Some? && def.value.Load? && def.value.pointerName == n)
  }

  predicate Creates(prog: Program, n: string) {
    exists i :: 0 <= i < |prog| && CreatesName(prog[i].def, n)
  }

  predicate Touches(prog: Program, n: string) {
    exists i :: 0 <= i < |prog| && TouchesName(prog[i].def, n)
  }

  /** Both tables have the same entry, or no entry, for `n`. */
  predicate AgreeAt(a: map<string, Variable>, b: map<string, Variable>, n: string) {
    (n in a <==> n in b) && (n in a ==> a[n] == b[n])
  }

  /** The names occurring in `names`. */
  function NameSet(names: seq<string>): set<string> {
    set n | n in names
  }

  predicate Distinct(names: seq<string>) {
    forall i, j :: 0 <= i < j < |names| ==> names[i] != names[j]
  }

  /** Some value among `ids` creates `n`. */
  predicate CreatedBy(prog: Program, ids: seq<ValueId>, n: string) {
    exists k :: 0 <= k < |ids| && ids[k] < |prog| && CreatesName(prog[ids[k]].def, n)
  }

  /** The values the walker dispatches on, in the order it does so. */
  ghost function DispatchedIds(prog: Program, v: ValueId, st: State): (r: seq<ValueId>)
    requires WellFormed(prog) && v < |prog|
    ensures IdsIn(r, |prog|)
    decreases Unexplored(prog, st.explored), 0
  {
    var name := prog[v].name;
    if name in st.explored then []
    else
      match prog[v].def
      case Some(BinaryOp(ops)) =>
        NameInNames(prog, v);
        UnexploredShrinks(prog, st.explored, st.explored + {name}, name);
        assert IdsIn(Operands(prog[v].def), |prog|);
        [v] + DispatchedAllIds(prog, ops, st.(explored := st.explored + {name}))
      case _ => [v]
  }

  ghost function DispatchedAllIds(prog: Program, ops: seq<ValueId>, st: State): (r: seq<ValueId>)
    requires WellFormed(prog) && IdsIn(ops, |prog|)
    ensures IdsIn(r, |prog|)
    decreases Unexplored(prog, st.explored), |ops|
  {
    if ops == [] then []
    else
      var st1 := Walk(prog, ops[0], st);
      UnexploredMonotone(prog, st.explored, st1.explored);
      DispatchedIds(prog, ops[0], st) + DispatchedAllIds(prog, ops[1..], st1)
  }

  /** The names of `ids`, in order. */
  function NamesOf(prog: Program, ids: seq<ValueId>): seq<string>
    requires IdsIn(ids, |prog|)
  {
    seq(|ids|, k requires 0 <= k < |ids| => prog[ids[k]].name)
  }

  lemma NamesOfConcat(prog: Program, a: seq<ValueId>, b: seq<ValueId>)
    requires IdsIn(a, |prog|) && IdsIn(b, |prog|)
    ensures IdsIn(a + b, |prog|)
    ensures NamesOf(prog, a + b) == NamesOf(prog, a) + NamesOf(prog, b)
  {
    assert IdsIn(a + b, |prog|);
    assert |NamesOf(prog, a + b)| == |NamesOf(prog, a) + NamesOf(prog, b)|;
    forall k | 0 <= k < |a + b| ensures NamesOf(prog, a + b)[k] == (NamesOf(prog, a) + NamesOf(prog, b))[k] {
    }
  }

  // ---------------------------------------------------------------------
  // One step, per instruction kind

  /** A value whose name was already explored changes nothing. */
  lemma WalkExploredIsNoop(prog: Program, v: ValueId, st: State)
    requires WellFormed(prog) && v < |prog|
    requires prog[v].name in st.explored
    ensures Walk(prog, v, st) == st
  {
  }

  /** A store of an integer constant inserts or overwrites the entry of
      its location with the store's line; any other store changes no
      entry. */
  lemma WalkStore(prog: Program, v: ValueId, st: State, pointer: string, isConstInt: bool, line: int)
    requires WellFormed(prog) && v < |prog| && prog[v].name !in st.explored
    requires prog[v].def == Some(Store(pointer, isConstInt, line))
    ensures var r := Walk(prog, v, st);
      && r.explored == st.explored + {prog[v].name}
      && (isConstInt ==> pointer in r.variables && r.variables[pointer] == Variable(pointer, line))
      && (!isConstInt ==> r.variables == st.variables)
      && forall n :: n != pointer ==> AgreeAt(st.variables, r.variables, n)
  {
  }

  /** A load adds no entry; when its location has an entry, only that
      entry's line changes, to the load's line. */
  lemma WalkLoad(prog: Program, v: ValueId, st: State, pointer: string, line: int)
    requires WellFormed(prog) && v < |prog| && prog[v].name !in st.explored
    requires prog[v].def == Some(Load(pointer, line))
    ensures var r := Walk(prog, v, st);
      && r.explored == st.explored + {prog[v].name}
      && r.variables.Keys == st.variables.Keys
      && (pointer in st.variables ==> r.variables[pointer] == Variable(st.variables[pointer].name, line))
      && forall n :: n != pointer ==> AgreeAt(st.variables, r.variables, n)
  {
  }

  /** A binary operator walks its operands in order, starting from the
      state in which its own name is explored. */
  lemma WalkBinaryOp(prog: Program, v: ValueId, st: State, ops: seq<ValueId>)
    requires WellFormed(prog) && v < |prog| && prog[v].name !in st.explored
    requires prog[v].def == Some(BinaryOp(ops))
    ensures IdsIn(ops, |prog|)
    ensures Walk(prog, v, st) == WalkAll(prog, ops, st.(explored := st.explored + {prog[v].name}))
  {
    assert IdsIn(Operands(prog[v].def), |prog|);
  }

  /** A call inserts or overwrites the entry named by its first argument,
      with the call's line, exactly when its callee is a resolved intrinsic
      whose name contains the marker; otherwise no entry changes. */
  lemma WalkCall(prog: Program, v: ValueId, st: State, callee: Option<Callee>, args: seq<string>, line: int)
    requires WellFormed(prog) && v < |prog| && prog[v].name !in st.explored
    requires prog[v].def == Some(Call(callee, args, line))
    ensures var r := Walk(prog, v, st);
      && r.explored == st.explored + {prog[v].name}
      && (RecordsCall(callee, args) ==> args[0] in r.variables && r.variables[args[0]] == Variable(args[0], line))
      && (RecordsCall(callee, args) ==> forall n :: n != args[0] ==> AgreeAt(st.variables, r.variables, n))
      && (!RecordsCall(callee, args) ==> r.variables == st.variables)
  {
  }

  /** The host compiler classifies a function as an intrinsic exactly
      when its name starts with the marker. */
  predicate IntrinsicNamed(c: Callee) {
    c.isIntrinsic <==> |INTRINSIC_MARKER| <= |c.name| && c.name[..|INTRINSIC_MARKER|] == INTRINSIC_MARKER
  }

  /** For callees named as the host compiler names them, the marker
      search after the intrinsic test always succeeds: a call is recorded
      exactly when it has a resolved intrinsic callee and an argument. */
  lemma MarkerTestIsRedundant(callee: Option<Callee>, args: seq<string>)
    requires callee.Some? ==> IntrinsicNamed(callee.value)
    ensures RecordsCall(callee, args) <==> callee.Some? && callee.value.isIntrinsic && |args| > 0
  {
    if callee.Some? && callee.value.isIntrinsic {
      ContainsIff(callee.value.name, INTRINSIC_MARKER);
      assert OccursAt(callee.value.name, INTRINSIC_MARKER, 0);
    }
  }

  /** A value that is not an instruction, and every other kind of
      instruction, only gets its name explored. */
  lemma WalkDeadEnd(prog: Program, v: ValueId, st: State)
    requires WellFormed(prog) && v < |prog| && prog[v].name !in st.explored
    requires prog[v].def.None? || prog[v].def.value.Other? || prog[v].def.value.Branch?
    ensures Walk(prog, v, st) == State(st.variables, st.explored + {prog[v].name})
  {
  }

  // ---------------------------------------------------------------------
  // Every walk

  lemma TableUpdateFacts(variables: map<string, Variable>, def: Option<Instruction>)
    requires def.Some?
    ensures var r := TableUpdate(variables, def.value);
      && (forall n :: !TouchesName(def, n) ==> AgreeAt(variables, r, n))
      && (forall n :: n in r && n !in variables ==> CreatesName(def, n))
      && (forall n :: CreatesName(def, n) ==> n in r)
      && (Consistent(variables) ==> Consistent(r))
  {
  }

  /** Entries keep the name they are keyed by. */
  lemma {:induction false} WalkKeepsConsistent(prog: Program, v: ValueId, st: State)
    requires WellFormed(prog) && v < |prog| && Consistent(st.variables)
    ensures Consistent(Walk(prog, v, st).variables)
    decreases Unexplored(prog, st.explored), 0
  {
    var name := prog[v].name;
    if name !in st.explored && prog[v].def.Some? {
      var st1 := st.(explored := st.explored + {name});
      if prog[v].def.value.BinaryOp? {
        NameInNames(prog, v);
        UnexploredShrinks(prog, st.explored, st1.explored, name);
        assert IdsIn(Operands(prog[v].def), |prog|);
        WalkAllKeepsConsistent(prog, prog[v].def.value.operands, st1);
      } else {
        TableUpdateFacts(st.variables, prog[v].def);
      }
    }
  }

  lemma {:induction false} WalkAllKeepsConsistent(prog: Program, ops: seq<ValueId>, st: State)
    requires WellFormed(prog) && IdsIn(ops, |prog|) && Consistent(st.variables)
    ensures Consistent(WalkAll(prog, ops, st).variables)
    decreases Unexplored(prog, st.explored), |ops|
  {
    if ops != [] {
      var st1 := Walk(prog, ops[0], st);
      WalkKeepsConsistent(prog, ops[0], st);
      UnexploredMonotone(prog, st.explored, st1.explored);
      WalkAllKeepsConsistent(prog, ops[1..], st1);
    }
  }

  lemma CreatedByConcat(prog: Program, a: seq<ValueId>, b: seq<ValueId>)
    ensures forall n :: CreatedBy(prog, a + b, n) <==> CreatedBy(prog, a, n) || CreatedBy(prog, b, n)
  {
    forall n ensures CreatedBy(prog, a + b, n) <==> CreatedBy(prog, a, n) || CreatedBy(prog, b, n) {
      if CreatedBy(prog, a + b, n) {
        var k :| 0 <= k < |a + b| && (a + b)[k] < |prog| && CreatesName(prog[(a + b)[k]].def, n);
        if k >= |a| {
          assert b[k - |a|] == (a + b)[k];
        }
      }
      if CreatedBy(prog, a, n) {
        var k :| 0 <= k < |a| && a[k] < |prog| && CreatesName(prog[a[k]].def, n);
        assert (a + b)[k] == a[k];
      }
      if CreatedBy(prog, b, n) {
        var k :| 0 <= k < |b| && b[k] < |prog| && CreatesName(prog[b[k]].def, n);
        assert (a + b)[|a| + k] == b[k];
      }
    }
  }

  lemma CreatedBySingle(prog: Program, v: ValueId)
    requires v < |prog|
    ensures forall n :: CreatedBy(prog, [v], n) <==> CreatesName(prog[v].def, n)
  {
    forall n | CreatesName(prog[v].def, n) ensures CreatedBy(prog, [v], n) {
      assert [v][0] == v;
    }
  }

  /** An entry is only ever inserted for a name that a constant store or
      a recorded intrinsic call reached by the walk targets; in particular
      a load never inserts one. */
  lemma {:induction false} WalkCreatesOnlyFromCreators(prog: Program, v: ValueId, st: State)
    requires WellFormed(prog) && v < |prog|
    ensures var r := Walk(prog, v, st);
      forall n :: n in r.variables && n !in st.variables ==> CreatedBy(prog, DispatchedIds(prog, v, st), n)
    decreases Unexplored(prog, st.explored), 0
  {
    var name := prog[v].name;
    if name !in st.explored && prog[v].def.Some? {
      var st1 := st.(explored := st.explored + {name});
      CreatedBySingle(prog, v);
      if prog[v].def.value.BinaryOp? {
        var ops := prog[v].def.value.operands;
        NameInNames(prog, v);
        UnexploredShrinks(prog, st.explored, st1.explored, name);
        WalkBinaryOp(prog, v, st, ops);
        WalkAllCreatesOnlyFromCreators(prog, ops, st1);
        var rest := DispatchedAllIds(prog, ops, st1);
        assert DispatchedIds(prog, v, st) == [v] + rest;
        CreatedByConcat(prog, [v], rest);
      } else {
        TableUpdateFacts(st.variables, prog[v].def);
        assert DispatchedIds(prog, v, st) == [v];
      }
    }
  }

  lemma {:induction false} WalkAllCreatesOnlyFromCreators(prog: Program, ops: seq<ValueId>, st: State)
    requires WellFormed(prog) && IdsIn(ops, |prog|)
    ensures var r := WalkAll(prog, ops, st);
      forall n :: n in r.variables && n !in st.variables ==> CreatedBy(prog, DispatchedAllIds(prog, ops, st), n)
    decreases Unexplored(prog, st.explored), |ops|
  {
    if ops != [] {
      var st1 := Walk(prog, ops[0], st);
      WalkCreatesOnlyFromCreators(prog, ops[0], st);
      UnexploredMonotone(prog, st.explored, st1.explored);
      WalkAllCreatesOnlyFromCreators(prog, ops[1..], st1);
      var first, rest := DispatchedIds(prog, ops[0], st), DispatchedAllIds(prog, ops[1..], st1);
      assert DispatchedAllIds(prog, ops, st) == first + rest;
      assert WalkAll(prog, ops, st) == WalkAll(prog, ops[1..], st1);
      CreatedByConcat(prog, first, rest);
    }
  }

  /** Every name a constant store or a recorded intrinsic call reached by
      the walk targets is in the table afterwards: influence flows through
      any chain of binary operators. */
  lemma {:induction false} WalkRecordsCreators(prog: Program, v: ValueId, st: State)
    requires WellFormed(prog) && v < |prog|
    ensures forall n :: CreatedBy(prog, DispatchedIds(prog, v, st), n) ==> n in Walk(prog, v, st).variables
    decreases Unexplored(prog, st.explored), 0
  {
    var name := prog[v].name;
    if name !in st.explored && prog[v].def.Some? {
      var st1 := st.(explored := st.explored + {name});
      CreatedBySingle(prog, v);
      if prog[v].def.value.BinaryOp? {
        var ops := prog[v].def.value.operands;
        NameInNames(prog, v);
        UnexploredShrinks(prog, st.explored, st1.explored, name);
        WalkBinaryOp(prog, v, st, ops);
        WalkAllRecordsCreators(prog, ops, st1);
        var rest := DispatchedAllIds(prog, ops, st1);
        assert DispatchedIds(prog, v, st) == [v] + rest;
        CreatedByConcat(prog, [v], rest);
      } else {
        TableUpdateFacts(st.variables, prog[v].def);
        assert DispatchedIds(prog, v, st) == [v];
      }
    }
  }

  lemma {:induction false} WalkAllRecordsCreators(prog: Program, ops: seq<ValueId>, st: State)
    requires WellFormed(prog) && IdsIn(ops, |prog|)
    ensures forall n :: CreatedBy(prog, DispatchedAllIds(prog, ops, st), n) ==> n in WalkAll(prog, ops, st).variables
    decreases Unexplored(prog, st.explored), |ops|
  {
    if ops != [] {
      var st1 := Walk(prog, ops[0], st);
      WalkRecordsCreators(prog, ops[0], st);
      UnexploredMonotone(prog, st.explored, st1.explored);
      WalkAllRecordsCreators(prog, ops[1..], st1);
      var first, rest := DispatchedIds(prog, ops[0], st), DispatchedAllIds(prog, ops[1..], st1);
      assert DispatchedAllIds(prog, ops, st) == first + rest;
      assert WalkAll(prog, ops, st) == WalkAll(prog, ops[1..], st1);
      CreatedByConcat(prog, first, rest);
    }
  }

  /** The entry of a name that no store, load or recorded call of the
      program targets is left as it was. */
  lemma {:induction false} WalkLeavesUntouched(prog: Program, v: ValueId, st: State)
    requires WellFormed(prog) && v < |prog|
    ensures var r := Walk(prog, v, st);
      forall n :: !Touches(prog, n) ==> AgreeAt(st.variables, r.variables, n)
    decreases Unexplored(prog, st.explored), 0
  {
    var name := prog[v].name;
    if name !in st.explored && prog[v].def.Some? {
      var st1 := st.(explored := st.explored + {name});
      if prog[v].def.value.BinaryOp? {
        NameInNames(prog, v);
        UnexploredShrinks(prog, st.explored, st1.explored, name);
        assert IdsIn(Operands(prog[v].def), |prog|);
        WalkAllLeavesUntouched(prog, prog[v].def.value.operands, st1);
      } else {
        TableUpdateFacts(st.variables, prog[v].def);
        forall n | !Touches(prog, n)
          ensures AgreeAt(st.variables, Walk(prog, v, st).variables, n)
        {
          assert !TouchesName(prog[v].def, n);
        }
      }
    }
  }

  lemma {:induction false} WalkAllLeavesUntouched(prog: Program, ops: seq<ValueId>, st: State)
    requires WellFormed(prog) && IdsIn(ops, |prog|)
    ensures var r := WalkAll(prog, ops, st);
      forall n :: !Touches(prog, n) ==> AgreeAt(st.variables, r.variables, n)
    decreases Unexplored(prog, st.explored), |ops|
  {
    if ops != [] {
      var st1 := Walk(prog, ops[0], st);
      WalkLeavesUntouched(prog, ops[0], st);
      UnexploredMonotone(prog, st.explored, st1.explored);
      WalkAllLeavesUntouched(prog, ops[1..], st1);
    }
  }

  lemma DistinctConcat(a: seq<string>, b: seq<string>)
    requires Distinct(a) && Distinct(b)
    requires forall i, j :: 0 <= i < |a| && 0 <= j < |b| ==> a[i] != b[j]
    ensures Distinct(a + b)
  {
  }

  /** Two walks in a row that each dispatch distinct names, exactly the
      names they explore, together dispatch distinct names. */
  lemma DispatchChain(first: seq<string>, rest: seq<string>, a: set<string>, b: set<string>, c: set<string>)
    requires a <= b <= c
    requires Distinct(first) && NameSet(first) == b - a
    requires Distinct(rest) && NameSet(rest) == c - b
    ensures Distinct(first + rest) && NameSet(first + rest) == c - a
  {
    forall i, j | 0 <= i < |first| && 0 <= j < |rest| ensures first[i] != rest[j] {
      assert first[i] in NameSet(first);
      assert first[i] in b;
      assert rest[j] in NameSet(rest);
      assert rest[j] !in b;
    }
    DistinctConcat(first, rest);
    assert NameSet(first + rest) == NameSet(first) + NameSet(rest);
  }

  /** Each name is dispatched at most once: the names of the dispatched
      values are distinct, and they are exactly the names the walk adds to
      the explored set. */
  lemma {:induction false} WalkDispatchesOnce(prog: Program, v: ValueId, st: State)
    requires WellFormed(prog) && v < |prog|
    ensures var d := NamesOf(prog, DispatchedIds(prog, v, st));
      && Distinct(d)
      && NameSet(d) == Walk(prog, v, st).explored - st.explored
    decreases Unexplored(prog, st.explored), 0
  {
    var name := prog[v].name;
    if name !in st.explored && prog[v].def.Some? && prog[v].def.value.BinaryOp? {
      var st1 := st.(explored := st.explored + {name});
      var ops := prog[v].def.value.operands;
      NameInNames(prog, v);
      UnexploredShrinks(prog, st.explored, st1.explored, name);
      assert IdsIn(Operands(prog[v].def), |prog|);
      WalkAllDispatchesOnce(prog, ops, st1);
      var restIds := DispatchedAllIds(prog, ops, st1);
      var rest := NamesOf(prog, restIds);
      NamesOfConcat(prog, [v], restIds);
      assert NamesOf(prog, [v]) == [name];
      assert name !in NameSet(rest);
      DistinctConcat([name], rest);
      assert NameSet([name] + rest) == {name} + NameSet(rest);
    } else if name !in st.explored {
      assert NamesOf(prog, [v]) == [name];
    }
  }

  lemma {:induction false} WalkAllDispatchesOnce(prog: Program, ops: seq<ValueId>, st: State)
    requires WellFormed(prog) && IdsIn(ops, |prog|)
    ensures var d := NamesOf(prog, DispatchedAllIds(prog, ops, st));
      && Distinct(d)
      && NameSet(d) == WalkAll(prog, ops, st).explored - st.explored
    decreases Unexplored(prog, st.explored), |ops|
  {
    if ops != [] {
      var st1 := Walk(prog, ops[0], st);
      WalkDispatchesOnce(prog, ops[0], st);
      UnexploredMonotone(prog, st.explored, st1.explored);
      WalkAllDispatchesOnce(prog, ops[1..], st1);
      var first, rest := DispatchedIds(prog, ops[0], st), DispatchedAllIds(prog, ops[1..], st1);
      NamesOfConcat(prog, first, rest);
      DispatchChain(NamesOf(prog, first), NamesOf(prog, rest),
        st.explored, st1.explored, WalkAll(prog, ops[1..], st1).explored);
    }
  }

  /** In well-typed IR no store is ever dispatched, whatever the walk
      starts from, as long as that is not a store itself. */
  lemma {:induction false} WalkDispatchesNoStore(prog: Program, v: ValueId, st: State)
    requires WellFormed(prog) && NoStoreOperands(prog) && v < |prog| && !IsStore(prog[v].def)
    ensures StoreFree(prog, DispatchedIds(prog, v, st))
    decreases Unexplored(prog, st.explored), 0
  {
    var name := prog[v].name;
    if name !in st.explored && prog[v].def.Some? && prog[v].def.value.BinaryOp? {
      var st1 := st.(explored := st.explored + {name});
      var ops := prog[v].def.value.operands;
      NameInNames(prog, v);
      UnexploredShrinks(prog, st.explored, st1.explored, name);
      assert IdsIn(Operands(prog[v].def), |prog|);
      assert StoreFree(prog, Operands(prog[v].def));
      WalkAllDispatchesNoStore(prog, ops, st1);
      var rest := DispatchedAllIds(prog, ops, st1);
      assert DispatchedIds(prog, v, st) == [v] + rest;
    }
  }

  lemma {:induction false} WalkAllDispatchesNoStore(prog: Program, ops: seq<ValueId>, st: State)
    requires WellFormed(prog) && NoStoreOperands(prog) && IdsIn(ops, |prog|) && StoreFree(prog, ops)
    ensures StoreFree(prog, DispatchedAllIds(prog, ops, st))
    decreases Unexplored(prog, st.explored), |ops|
  {
    if ops != [] {
      var st1 := Walk(prog, ops[0], st);
      WalkDispatchesNoStore(prog, ops[0], st);
      UnexploredMonotone(prog, st.explored, st1.explored);
      assert StoreFree(prog, ops[1..]) by {
        forall k | 0 <= k < |ops[1..]| ensures !IsStore(prog[ops[1..][k]].def) {
          assert ops[1..][k] == ops[k + 1];
        }
      }
      WalkAllDispatchesNoStore(prog, ops[1..], st1);
    }
  }

  /** Walking a list of values whose names are all explored changes
      nothing. */
  lemma {:induction false} WalkAllExploredIsNoop(prog: Program, ops: seq<ValueId>, st: State)
    requires WellFormed(prog) && IdsIn(ops, |prog|)
    requires forall k :: 0 <= k < |ops| ==> prog[ops[k]].name in st.explored
    ensures WalkAll(prog, ops, st) == st
  {
    if ops != [] {
      assert prog[ops[0]].name in st.explored;
      WalkAllExploredIsNoop(prog, ops[1..], st);
    }
  }

  /** Walking the same values a second time changes nothing. */
  lemma WalkAllIdempotent(prog: Program, ops: seq<ValueId>, st: State)
    requires WellFormed(prog) && IdsIn(ops, |prog|)
    ensures WalkAll(prog, ops, WalkAll(prog, ops, st)) == WalkAll(prog, ops, st)
  {
    WalkAllExploredIsNoop(prog, ops, WalkAll(prog, ops, st));
  }

  /** Walking `a` and then `b` is walking `a + b`. */
  lemma {:induction false} WalkAllConcat(prog: Program, a: seq<ValueId>, b: seq<ValueId>, st: State)
    requires WellFormed(prog) && IdsIn(a, |prog|) && IdsIn(b, |prog|)
    ensures IdsIn(a + b, |prog|)
    ensures WalkAll(prog, a + b, st) == WalkAll(prog, b, WalkAll(prog, a, st))
    decreases |a|
  {
    if a != [] {
      assert (a + b)[1..] == a[1..] + b;
      WalkAllConcat(prog, a[1..], b, Walk(prog, a[0], st));
    } else {
      assert a + b == b;
    }
  }
}
