/** The operand checks and the construction bookkeeping of rlwe/evaluator.go.

    `CheckBinary` and `CheckUnary` validate the operands of an operation and
    return the output degree and level. An operand is seen only through its
    degree, level and NTT flag; a nil operand is `None`.

    An evaluator is a record of references to its components. Heap
    allocation is a counter: every allocation takes the next unused
    reference, so a component is shared exactly when two evaluators hold the
    same reference. The automorphism index is computed by the external
    `ring.AutomorphismNTTIndex`, a parameter here. */
module RlweEvaluator {
  import opened Results
  import opened Words

  /** What the checks read of an operand: `Degree()`, `Level()` and
      `El().IsNTT`. */
  datatype Operand = Operand(degree: int, level: int, isNTT: bool)

  datatype CheckError =
    | NilDereference       // a method called on a nil operand
    | NilOperands          // "... cannot be nil"
    | BothPlaintexts       // "op0 and op1 cannot be both plaintexts"
    | OutDegreeTooSmall    // "opOut degree is too small"
    | Op0NTTMismatch       // "op0.IsNTT() != ..."
    | Op1NTTMismatch       // "op1.IsNTT() != ..."

  /** `CheckBinary`. The degrees and levels are read before the nil check,
      so a nil operand fails on that first read. `opOut`'s NTT flag is not
      checked. */
  function CheckBinary(defaultNTT: bool, op0: Option<Operand>, op1: Option<Operand>, opOut: Option<Operand>,
                       opOutMinDegree: int): (r: Result<(int, int), CheckError>)
    ensures (op0.None? || op1.None? || opOut.None?) <==> r == Err(NilDereference)
    ensures r.Ok? <==>
      && op0.Some? && op1.Some? && opOut.Some?
      && op0.value.degree + op1.value.degree != 0
      && opOut.value.degree >= opOutMinDegree
      && op0.value.isNTT == defaultNTT
      && op1.value.isNTT == defaultNTT
    ensures r.Ok? ==>
      var (degree, level) := r.value;
      && degree >= op0.value.degree && degree >= op1.value.degree && degree >= opOut.value.degree
      && degree in {op0.value.degree, op1.value.degree, opOut.value.degree}
      && level <= op0.value.level && level <= op1.value.level && level <= opOut.value.level
      && level in {op0.value.level, op1.value.level, opOut.value.level}
  {
    if op0.None? || op1.None? || opOut.None? then Err(NilDereference)
    else
      var (a, b, out) := (op0.value, op1.value, opOut.value);
      var degree := Max(Max(a.degree, b.degree), out.degree);
      var level := Min(Min(a.level, b.level), out.level);
      if a.degree + b.degree == 0 then Err(BothPlaintexts)
      else if out.degree < opOutMinDegree then Err(OutDegreeTooSmall)
      else if a.isNTT != defaultNTT then Err(Op0NTTMismatch)
      else if b.isNTT != defaultNTT then Err(Op1NTTMismatch)
      else Ok((degree, level))
  }

  /** `CheckUnary`: the nil check comes first here, then only `op0`'s NTT
      flag is checked. */
  function CheckUnary(defaultNTT: bool, op0: Option<Operand>, opOut: Option<Operand>): (r: Result<(int, int), CheckError>)
    ensures (op0.None? || opOut.None?) <==> r == Err(NilOperands)
    ensures r.Ok? <==> op0.Some? && opOut.Some? && op0.value.isNTT == defaultNTT
    ensures r.Err? ==> r.error in {NilOperands, Op0NTTMismatch}
    ensures r.Ok? ==>
      var (degree, level) := r.value;
      && degree >= op0.value.degree && degree >= opOut.value.degree
      && degree in {op0.value.degree, opOut.value.degree}
      && level <= op0.value.level && level <= opOut.value.level
      && level in {op0.value.level, opOut.value.level}
  {
    if op0.None? || opOut.None? then Err(NilOperands)
    else if op0.value.isNTT != defaultNTT then Err(Op0NTTMismatch)
    else Ok((Max(op0.value.degree, opOut.value.degree), Min(op0.value.level, opOut.value.level)))
  }

  /** The panic "op0, op1 and opOut cannot be nil" of `CheckBinary` is
      unreachable: every nil operand fails earlier. */
  lemma BinaryNilMessageUnreachable(defaultNTT: bool, op0: Option<Operand>, op1: Option<Operand>,
                                    opOut: Option<Operand>, opOutMinDegree: int)
    ensures CheckBinary(defaultNTT, op0, op1, opOut, opOutMinDegree) != Err(NilOperands)
  {
  }

  /** The checks are in order: a failure is reported by the first check that
      fails. */
  lemma BinaryFailureOrder(defaultNTT: bool, a: Operand, b: Operand, out: Operand, opOutMinDegree: int)
    ensures var r := CheckBinary(defaultNTT, Some(a), Some(b), Some(out), opOutMinDegree);
      && (r == Err(BothPlaintexts) <==> a.degree + b.degree == 0)
      && (r == Err(OutDegreeTooSmall) <==> a.degree + b.degree != 0 && out.degree < opOutMinDegree)
      && (r == Err(Op0NTTMismatch) <==>
            a.degree + b.degree != 0 && out.degree >= opOutMinDegree && a.isNTT != defaultNTT)
      && (r == Err(Op1NTTMismatch) <==>
            a.degree + b.degree != 0 && out.degree >= opOutMinDegree && a.isNTT == defaultNTT &&
            b.isNTT != defaultNTT)
  {
  }

  /** Neither check reads the output operand's NTT flag. */
  lemma OutputFlagIgnored(defaultNTT: bool, op0: Option<Operand>, op1: Option<Operand>, out: Operand,
                          opOutMinDegree: int, flag: bool)
    ensures CheckBinary(defaultNTT, op0, op1, Some(out.(isNTT := flag)), opOutMinDegree) ==
      CheckBinary(defaultNTT, op0, op1, Some(out), opOutMinDegree)
    ensures CheckUnary(defaultNTT, op0, Some(out.(isNTT := flag))) == CheckUnary(defaultNTT, op0, Some(out))
  {
  }

  // ---------------------------------------------------------------------
  // Evaluator construction

  /** A heap reference. */
  type Ref = nat

  /** What the evaluator reads of its parameters: `N()`, the ring's
      `NthRoot()`, `DefaultNTTFlag()`, and whether `RingP()` is non-nil. */
  datatype Params = Params(n: nat, nthRoot: nat, defaultNTT: bool, hasRingP: bool)

  /** An evaluation key set, seen through its identity and
      `GetGaloisKeysList()`. */
  datatype KeySet = KeySet(id: Ref, galoisElements: seq<uint64>)

  /** The automorphism index map: a reference (Go maps are references) and
      its entries. */
  datatype AutIndex = AutIndex(id: Ref, entries: map<uint64, seq<uint64>>)

  /** `ring.AutomorphismNTTIndex(N, NthRoot, galEl)`. */
  type IndexFn = (nat, nat, uint64) -> seq<uint64>

  datatype Evaluator = Evaluator(
    keySet: Option<KeySet>,
    base: Ref,                    // *evaluatorBase, holding the parameters
    params: Params,
    buffers: Ref,                 // *evaluatorBuffers
    index: Option<AutIndex>,      // nil map when None
    basisExtender: Option<Ref>,
    decomposer: Option<Ref>)

  /** The result of an allocating operation and the next unused reference. */
  datatype Allocated<T> = Allocated(value: T, next: Ref)

  /** The entries the index must hold for a key set: one per listed Galois
      element. */
  function IndexEntries(f: IndexFn, params: Params, galEls: seq<uint64>): map<uint64, seq<uint64>>
  {
    map g | g in galEls :: f(params.n, params.nthRoot, g)
  }

  /** The index construction shared by `NewEvaluator` and `WithKey`: nil
      unless the key set lists some Galois element, then a fresh map. */
  function BuildIndex(f: IndexFn, params: Params, galEls: seq<uint64>, next: Ref): (r: Allocated<Option<AutIndex>>)
    ensures IndexFor(f, params, galEls, r.value)
    ensures next <= r.next
    ensures r.value.Some? ==> next <= r.value.value.id < r.next
  {
    if |galEls| == 0 then Allocated(None, next)
    else Allocated(Some(AutIndex(next, IndexEntries(f, params, galEls))), next + 1)
  }

  /** An index fits a list of Galois elements: absent when the list is
      empty, and otherwise keyed by exactly the listed elements, each mapped
      to its automorphism index. */
  ghost predicate IndexFor(f: IndexFn, params: Params, galEls: seq<uint64>, index: Option<AutIndex>)
  {
    && (index.None? <==> |galEls| == 0)
    && (index.Some? ==>
          && index.value.entries.Keys == (set g | g in galEls)
          && forall g :: g in index.value.entries ==>
               index.value.entries[g] == f(params.n, params.nthRoot, g))
  }

  /** The index agrees with the key set: it fits the listed Galois
      elements, and a missing key set lists none. */
  ghost predicate IndexMatchesKeys(f: IndexFn, e: Evaluator)
  {
    var galEls := if e.keySet.Some? then e.keySet.value.galoisElements else [];
    IndexFor(f, e.params, galEls, e.index)
  }

  /** The references an evaluator holds. */
  function Refs(e: Evaluator): set<Ref>
  {
    {e.base, e.buffers}
    + (if e.index.Some? then {e.index.value.id} else {})
    + (if e.basisExtender.Some? then {e.basisExtender.value} else {})
    + (if e.decomposer.Some? then {e.decomposer.value} else {})
  }

  /** The references an evaluator holds, one per component present. */
  function RefList(e: Evaluator): seq<Ref>
  {
    [e.base, e.buffers]
    + (if e.index.Some? then [e.index.value.id] else [])
    + (if e.basisExtender.Some? then [e.basisExtender.value] else [])
    + (if e.decomposer.Some? then [e.decomposer.value] else [])
  }

  /** No two components of the evaluator share a reference. */
  ghost predicate SeparateComponents(e: Evaluator)
  {
    forall i, j :: 0 <= i < j < |RefList(e)| ==> RefList(e)[i] != RefList(e)[j]
  }

  /** The components an operation writes to: the buffers and the basis
      extender, which keeps scratch space of its own. */
  function Scratch(e: Evaluator): set<Ref>
  {
    {e.buffers} + (if e.basisExtender.Some? then {e.basisExtender.value} else {})
  }

  /** Every reference the evaluator holds was allocated before `next`. */
  ghost predicate AllocatedBelow(e: Evaluator, next: Ref)
  {
    forall x :: x in Refs(e) ==> x < next
  }

  /** `NewEvaluator`: allocates the base, the buffers, and, when the
      parameters have a ring P, a basis extender and a decomposer; then
      builds the index from the key set. */
  function NewEvaluator(f: IndexFn, params: Params, evk: Option<KeySet>, next: Ref): (r: Allocated<Evaluator>)
    ensures IndexMatchesKeys(f, r.value)
    ensures r.value.keySet == evk && r.value.params == params
    ensures r.value.basisExtender.Some? <==> params.hasRingP
    ensures r.value.decomposer.Some? <==> params.hasRingP
    ensures forall x :: x in Refs(r.value) ==> next <= x < r.next
    ensures SeparateComponents(r.value)
  {
    var base, buffers := next, next + 1;
    var (basisExtender, decomposer, next') :=
      if params.hasRingP then (Some(next + 2), Some(next + 3), next + 4) else (None, None, next + 2);
    var galEls := if evk.Some? then evk.value.galoisElements else [];
    var built := BuildIndex(f, params, galEls, next');
    Allocated(Evaluator(evk, base, params, buffers, built.value, basisExtender, decomposer), built.next)
  }

  /** `ShallowCopy`: shares the base, the decomposer, the key set and the
      index; allocates fresh buffers and a fresh copy of the basis
      extender. */
  function ShallowCopy(e: Evaluator, next: Ref): (r: Allocated<Evaluator>)
    ensures r.value.base == e.base && r.value.params == e.params
    ensures r.value.decomposer == e.decomposer
    ensures r.value.keySet == e.keySet && r.value.index == e.index
    ensures r.value.basisExtender.Some? <==> e.basisExtender.Some?
    ensures forall x :: x in Scratch(r.value) ==> next <= x < r.next
  {
    var buffers := next;
    var (basisExtender, next') := if e.basisExtender.Some? then (Some(next + 1), next + 2) else (None, next + 1);
    Allocated(e.(buffers := buffers, basisExtender := basisExtender), next')
  }

  /** `WithKey`: a nil key set fails on `GetGaloisKeysList()`; otherwise the
      result shares the base, the buffers, the decomposer and the basis
      extender, and holds the new key set and an index built from it. */
  function WithKey(f: IndexFn, e: Evaluator, evk: Option<KeySet>, next: Ref): (r: Result<Allocated<Evaluator>, CheckError>)
    ensures evk.None? <==> r == Err(NilDereference)
    ensures r.Ok? ==>
      var e' := r.value.value;
      && e'.base == e.base && e'.params == e.params && e'.buffers == e.buffers
      && e'.decomposer == e.decomposer && e'.basisExtender == e.basisExtender
      && e'.keySet == evk
      && IndexMatchesKeys(f, e')
      && (e'.index.Some? ==> next <= e'.index.value.id < r.value.next)
  {
    if evk.None? then Err(NilDereference)
    else
      var built := BuildIndex(f, e.params, evk.value.galoisElements, next);
      Ok(Allocated(e.(keySet := evk, index := built.value), built.next))
  }

  /** `ShallowCopy` keeps the index in agreement with the key set. */
  lemma ShallowCopyKeepsIndex(f: IndexFn, e: Evaluator, next: Ref)
    requires IndexMatchesKeys(f, e)
    ensures IndexMatchesKeys(f, ShallowCopy(e, next).value)
  {
  }

  /** The receiver and its shallow copy can run concurrently: the copy
      writes to no component the receiver holds, so neither sees the
      other's scratch writes. */
  lemma ShallowCopyIsolated(e: Evaluator, next: Ref)
    requires AllocatedBelow(e, next)
    ensures Scratch(ShallowCopy(e, next).value) !! Refs(e)
    ensures AllocatedBelow(ShallowCopy(e, next).value, ShallowCopy(e, next).next)
  {
    var c := ShallowCopy(e, next);
    forall x | x in Scratch(c.value)
      ensures x !in Refs(e)
    {
      assert next <= x;
    }
  }

  /** The receiver and the evaluator `WithKey` returns cannot run
      concurrently: they write to the same buffers and basis extender. */
  lemma WithKeySharesScratch(f: IndexFn, e: Evaluator, evk: KeySet, next: Ref)
    ensures WithKey(f, e, Some(evk), next).Ok?
    ensures Scratch(WithKey(f, e, Some(evk), next).value.value) == Scratch(e)
  {
  }

  /** Whatever the evaluator it is called on, `WithKey` with the key set
      `NewEvaluator` was given yields the index `NewEvaluator` built. */
  lemma WithKeyRebuildsIndex(f: IndexFn, e: Evaluator, params: Params, evk: KeySet, next: Ref, next': Ref)
    requires e.params == params
    ensures var created := NewEvaluator(f, params, Some(evk), next).value;
      var rekeyed := WithKey(f, e, Some(evk), next').value.value;
      (created.index.Some? <==> rekeyed.index.Some?) &&
      (created.index.Some? ==> created.index.value.entries == rekeyed.index.value.entries)
  {
  }
}
