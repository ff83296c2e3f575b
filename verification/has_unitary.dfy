/** The `has_unitary` protocol: a chain of four inference strategies, each of
    which answers "unitary", "not unitary" or "inconclusive", resolved to a
    plain boolean by taking the first conclusive answer.

    Python's duck-typed capabilities (`getattr(val, '_has_unitary_', None)` and
    friends) become explicit optional fields of the value datatype `Val`. */
module HasUnitary {
  import opened Wrappers
  import opened QubitOrder

  /** The class of a value as far as the protocol cares: a `cirq.Gate` (which
      has an arity but no qubits), a `cirq.Operation` (placed on qubits) or
      anything else. */
  datatype Kind =
    | Gate(numQubits: nat)
    | Operation(qubits: seq<Qubit>)
    | Other

  /** What calling `_apply_unitary_` or `_unitary_` returned: the sentinel
      `NotImplemented`, Python's `None`, or an actual array. */
  datatype CallResult = NotImplemented | NoneResult | Returned

  /** What one level of decomposition returns: nothing (the value cannot be
      decomposed) or an ordered list of parts. */
  datatype Decomposition = Undecomposable | DecomposesInto(parts: seq<Val>)

  /** A value that may or may not be unitary.
      - `hasUnitaryFlag`: `None` when `_has_unitary_` is absent; `Some(None)`
        when it returns `NotImplemented`; `Some(Some(b))` when it returns `b`.
      - `decomposition`: what one level of decomposition returns. Parts are structurally smaller,
        which is the acyclic-decomposition assumption the source relies on.
      - `applyUnitary`, `unitary`: `None` when the method is absent, otherwise
        what calling it returns. */
  datatype Val = Val(
    kind: Kind,
    hasUnitaryFlag: Option<Option<bool>>,
    decomposition: Decomposition,
    applyUnitary: Option<CallResult>,
    unitary: Option<CallResult>)

  /** The resolver's decision rule: the first conclusive answer, or `false`
      when every answer is inconclusive. */
  function FirstConclusive(answers: seq<Option<bool>>): (r: bool)
    ensures (forall j :: 0 <= j < |answers| ==> answers[j].None?) ==> !r
    ensures forall k :: (0 <= k < |answers| && answers[k].Some? &&
                         (forall j :: 0 <= j < k ==> answers[j].None?)) ==> r == answers[k].value
  {
    if |answers| == 0 then false
    else if answers[0].Some? then answers[0].value
    else
      var rest := FirstConclusive(answers[1..]);
      assert forall k :: 1 <= k < |answers| ==> answers[k] == answers[1..][k - 1];
      rest
  }

  /** `has_unitary(val)`: the four strategies are consulted in order and the
      first conclusive one decides; a later strategy is not evaluated once an
      earlier one is conclusive. */
  function HasUnitary(v: Val): (r: bool)
    ensures v.hasUnitaryFlag.Some? && v.hasUnitaryFlag.value.Some? ==> r == v.hasUnitaryFlag.value.value
    ensures (&& v.decomposition.Undecomposable? && v.applyUnitary.None? && v.unitary.None?
             && (v.hasUnitaryFlag.None? || v.hasUnitaryFlag.value.None?)) ==> !r
    decreases v, 1
  {
    match FromHasUnitary(v)
    case Some(b) => b
    case None =>
      match FromDecompose(v)
      case Some(b) => b
      case None =>
        match FromApplyUnitary(v)
        case Some(b) => b
        case None =>
          match FromUnitary(v)
          case Some(b) => b
          case None => false
  }

  /** Strategy 1: the value's own `_has_unitary_` answer, taken verbatim. */
  function FromHasUnitary(v: Val): (r: Option<bool>)
    ensures r.None? <==> v.hasUnitaryFlag.None? || v.hasUnitaryFlag.value.None?
    ensures r.Some? ==> v.hasUnitaryFlag == Some(r)
  {
    match v.hasUnitaryFlag
    case None => None
    case Some(result) => result
  }

  /** Strategy 2: decompose one level and require every part to be unitary.
      The parts are resolved with `HasUnitary`, which never answers
      "inconclusive", so this strategy is conclusive whenever a decomposition
      exists. */
  function FromDecompose(v: Val): (r: Option<bool>)
    ensures r.None? <==> v.decomposition.Undecomposable?
    ensures v.decomposition == DecomposesInto([]) ==> r == Some(true)
    decreases v, 0
  {
    match v.decomposition
    case Undecomposable => None
    case DecomposesInto(ops) => Some(forall i | 0 <= i < |ops| :: HasUnitary(ops[i]))
  }

  /** The qubits the probe of strategy 3 is sized for: a gate is first placed
      on `LineQubit.range(num_qubits)`, an operation keeps its own qubits, and
      any other value has none (the strategy does not apply to it). */
  function ProbeQubits(k: Kind): (r: Option<seq<Qubit>>)
    ensures r.None? <==> k.Other?
    ensures k.Gate? ==> r == Some(LineRange(k.numQubits))
    ensures k.Operation? ==> r == Some(k.qubits)
  {
    match k
    case Gate(n) => Some(LineRange(n))
    case Operation(qs) => Some(qs)
    case Other => None
  }

  /** Strategy 3: apply the value to a basis-state probe. A returned buffer
      means unitary, `None` means not unitary; a missing method, a value that
      is neither a gate nor an operation, or `NotImplemented` is inconclusive. */
  function FromApplyUnitary(v: Val): (r: Option<bool>)
    ensures r.None? <==> v.applyUnitary.None? || v.kind.Other? || v.applyUnitary == Some(NotImplemented)
    ensures r == Some(true) <==> v.applyUnitary == Some(Returned) && !v.kind.Other?
    ensures r == Some(false) <==> v.applyUnitary == Some(NoneResult) && !v.kind.Other?
  {
    match v.applyUnitary
    case None => None
    case Some(result) =>
      match ProbeQubits(v.kind)
      case None => None
      case Some(_) =>
        if result == NotImplemented then None
        else Some(result != NoneResult)
  }

  /** Strategy 4: ask for the matrix. Only a missing `_unitary_` is
      inconclusive; `NotImplemented` and `None` both mean "not unitary". */
  function FromUnitary(v: Val): (r: Option<bool>)
    ensures r.None? <==> v.unitary.None?
    ensures r == Some(true) <==> v.unitary == Some(Returned)
  {
    match v.unitary
    case None => None
    case Some(result) => Some(result != NotImplemented && result != NoneResult)
  }

  /** The strategies in the order the resolver tries them. */
  function Strategies(v: Val): (s: seq<Option<bool>>)
    ensures |s| == 4
  {
    [FromHasUnitary(v), FromDecompose(v), FromApplyUnitary(v), FromUnitary(v)]
  }

  /** The resolver is exactly "first conclusive strategy, default false". */
  lemma ResolverIsFirstConclusive(v: Val)
    ensures HasUnitary(v) == FirstConclusive(Strategies(v))
    ensures (forall j :: 0 <= j < 4 ==> Strategies(v)[j].None?) ==> !HasUnitary(v)
    ensures forall k :: (0 <= k < 4 && Strategies(v)[k].Some? &&
                         (forall j :: 0 <= j < k ==> Strategies(v)[j].None?)) ==> HasUnitary(v) == Strategies(v)[k].value
  {
    var s := Strategies(v);
    assert s[0] == FromHasUnitary(v) && s[1] == FromDecompose(v);
    assert s[2] == FromApplyUnitary(v) && s[3] == FromUnitary(v);
    assert s[1..][1..][1..][1..] == [];
  }

  /** `w` agrees with `v` on every capability the strategies `0..k` consult. */
  predicate AgreeThrough(v: Val, w: Val, k: nat) {
    && v.hasUnitaryFlag == w.hasUnitaryFlag
    && (k >= 1 ==> v.decomposition == w.decomposition)
    && (k >= 2 ==> v.applyUnitary == w.applyUnitary && v.kind == w.kind)
    && (k >= 3 ==> v.unitary == w.unitary)
  }

  /** Once strategy `k` is the first conclusive one, the capabilities that only
      later strategies consult cannot influence the answer: they are never
      consulted. */
  lemma LaterStrategiesNotConsulted(v: Val, w: Val, k: nat)
    requires k < 4
    requires Strategies(v)[k].Some?
    requires forall j :: 0 <= j < k ==> Strategies(v)[j].None?
    requires AgreeThrough(v, w, k)
    ensures HasUnitary(w) == HasUnitary(v) == Strategies(v)[k].value
  {
    ResolverIsFirstConclusive(v);
    ResolverIsFirstConclusive(w);
    forall j | 0 <= j <= k
      ensures Strategies(w)[j] == Strategies(v)[j]
    {
      if j == 2 {
        assert ProbeQubits(w.kind) == ProbeQubits(v.kind);
      }
    }
  }

  /** The decomposition strategy is the conjunction of `has_unitary` over the
      parts: it is `true` iff every part is unitary and `false` iff some part
      is not. */
  lemma DecomposeIsConjunction(v: Val)
    requires v.decomposition.DecomposesInto?
    ensures FromDecompose(v) == Some(true) <==> forall op :: op in v.decomposition.parts ==> HasUnitary(op)
    ensures FromDecompose(v) == Some(false) <==> exists op :: op in v.decomposition.parts && !HasUnitary(op)
  {
    var ops := v.decomposition.parts;
    if forall i | 0 <= i < |ops| :: HasUnitary(ops[i]) {
      assert FromDecompose(v) == Some(true);
      forall op | op in ops
        ensures HasUnitary(op)
      {
        var i :| 0 <= i < |ops| && ops[i] == op;
      }
    } else {
      var i :| 0 <= i < |ops| && !HasUnitary(ops[i]);
      assert ops[i] in ops;
      assert FromDecompose(v) == Some(false);
    }
  }

  /** A value whose flag is inconclusive and which decomposes resolves to the
      conjunction of its parts; later strategies are not consulted. */
  lemma DecomposableResolvesToParts(v: Val)
    requires v.hasUnitaryFlag.None? || v.hasUnitaryFlag.value.None?
    requires v.decomposition.DecomposesInto?
    ensures HasUnitary(v) <==> forall op :: op in v.decomposition.parts ==> HasUnitary(op)
  {
    DecomposeIsConjunction(v);
  }

  /** Values that are unitary by construction: they say so, or their flag is
      inconclusive and they decompose into such values. */
  predicate UnitaryTree(v: Val)
    decreases v
  {
    || v.hasUnitaryFlag == Some(Some(true))
    || (&& (v.hasUnitaryFlag.None? || v.hasUnitaryFlag.value.None?)
        && v.decomposition.DecomposesInto?
        && forall i | 0 <= i < |v.decomposition.parts| :: UnitaryTree(v.decomposition.parts[i]))
  }

  /** The resolver recognises every finite decomposition tree whose leaves
      declare themselves unitary, whatever their other capabilities say. */
  lemma {:induction false} UnitaryTreeResolvesTrue(v: Val)
    requires UnitaryTree(v)
    ensures HasUnitary(v)
    decreases v
  {
    if v.hasUnitaryFlag != Some(Some(true)) {
      var ops := v.decomposition.parts;
      forall i | 0 <= i < |ops|
        ensures HasUnitary(ops[i])
      {
        UnitaryTreeResolvesTrue(ops[i]);
      }
      assert FromHasUnitary(v).None?;
      assert FromDecompose(v) == Some(true);
    }
  }

  /** One part that is not unitary makes an otherwise inconclusive value
      non-unitary, at any depth of the decomposition. */
  lemma NonUnitaryPartPropagates(v: Val, i: nat)
    requires v.hasUnitaryFlag.None? || v.hasUnitaryFlag.value.None?
    requires v.decomposition.DecomposesInto? && i < |v.decomposition.parts|
    requires !HasUnitary(v.decomposition.parts[i])
    ensures !HasUnitary(v)
  {
    assert FromHasUnitary(v).None?;
    assert FromDecompose(v) == Some(false);
  }

  /** The documentation says a `_unitary_` returning `NotImplemented` is
      inconclusive, while the code treats it as "not unitary". Because this is
      the last strategy and the default is `false`, both readings give the
      same resolver answer. */
  function FromUnitaryAsDocumented(v: Val): (r: Option<bool>)
    ensures r.None? <==> v.unitary.None? || v.unitary == Some(NotImplemented)
    ensures r == Some(true) <==> v.unitary == Some(Returned)
  {
    match v.unitary
    case None => None
    case Some(NotImplemented) => None
    case Some(result) => Some(result == Returned)
  }

  lemma {:induction false} DocumentedUnitaryStrategyAgrees(v: Val)
    ensures HasUnitary(v) ==
            FirstConclusive([FromHasUnitary(v), FromDecompose(v), FromApplyUnitary(v), FromUnitaryAsDocumented(v)])
  {
    var s := [FromHasUnitary(v), FromDecompose(v), FromApplyUnitary(v), FromUnitaryAsDocumented(v)];
    if s[0].Some? {
      assert FirstConclusive(s) == s[0].value;
    } else if s[1].Some? {
      assert FirstConclusive(s) == s[1].value;
    } else if s[2].Some? {
      assert FirstConclusive(s) == s[2].value;
    } else if s[3].Some? {
      assert FirstConclusive(s) == s[3].value;
    } else {
      assert forall j :: 0 <= j < 4 ==> s[j].None?;
      assert !FirstConclusive(s);
    }
  }

  /** The second result of `_try_decompose_into_operations_and_qubits`: the
      qubits a decomposition acts on. Parts of a decomposition are operations
      (the return type is a list of `cirq.Operation`), which is what the
      precondition demands of a value that is neither a gate nor an operation. */
  predicate PartsAreOperations(v: Val) {
    v.kind.Other? && v.decomposition.DecomposesInto? ==>
      forall op :: op in v.decomposition.parts ==> op.kind.Operation?
  }

  /** All qubits touched by some part of a decomposition. */
  function TouchedQubits(ops: seq<Val>): (qs: set<Qubit>)
    requires forall op :: op in ops ==> op.kind.Operation?
    ensures forall q :: q in qs <==> exists i :: 0 <= i < |ops| && q in ops[i].kind.qubits
  {
    set op, q | op in ops && q in op.kind.qubits :: q
  }

  datatype Decomposed = Decomposed(operations: Decomposition, qubits: seq<Qubit>)

  /** Decomposition together with the qubits it applies to: a gate is placed
      on `LineQubit.range(num_qubits)`, an operation keeps its own qubits (in
      both cases even when nothing decomposes), any other decomposable value
      acts on the sorted, duplicate-free union of its parts' qubits, and any
      other value without a decomposition yields `(None, ())`. */
  function TryDecompose(v: Val): (r: Decomposed)
    requires PartsAreOperations(v)
    ensures r.operations == v.decomposition
    ensures v.kind.Gate? ==> r.qubits == LineRange(v.kind.numQubits)
    ensures v.kind.Operation? ==> r.qubits == v.kind.qubits
    ensures v.kind.Other? && v.decomposition.Undecomposable? ==> r.qubits == []
    ensures v.kind.Other? && v.decomposition.DecomposesInto? ==>
              && StrictlyIncreasing(r.qubits)
              && forall q :: q in r.qubits <==>
                   exists i :: 0 <= i < |v.decomposition.parts| && q in v.decomposition.parts[i].kind.qubits
  {
    match v.kind
    case Gate(n) => Decomposed(v.decomposition, LineRange(n))
    case Operation(qs) => Decomposed(v.decomposition, qs)
    case Other =>
      match v.decomposition
      case DecomposesInto(ops) => Decomposed(DecomposesInto(ops), SortedElements(TouchedQubits(ops)))
      case Undecomposable => Decomposed(Undecomposable, [])
  }

  /** The decomposition strategy only looks at the first component of
      `TryDecompose`. */
  lemma DecomposeStrategyUsesTryDecompose(v: Val)
    requires PartsAreOperations(v)
    ensures FromDecompose(v).None? <==> TryDecompose(v).operations.Undecomposable?
  {
  }

  /** Decomposing into parts that resolve `[true, true, false]` gives `false`,
      into `[true, true]` gives `true`. */
  lemma ConjunctionExamples(t: Val, f: Val)
    requires HasUnitary(t) && !HasUnitary(f)
    ensures !HasUnitary(Val(Other, None, DecomposesInto([t, t, f]), Some(Returned), Some(Returned)))
    ensures HasUnitary(Val(Other, None, DecomposesInto([t, t]), None, Some(NoneResult)))
  {
    var bad := Val(Other, None, DecomposesInto([t, t, f]), Some(Returned), Some(Returned));
    NonUnitaryPartPropagates(bad, 2);
    DecomposeIsConjunction(Val(Other, None, DecomposesInto([t, t]), None, Some(NoneResult)));
  }
}
