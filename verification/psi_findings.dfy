/** What the PSI driver of psi/main.go computes against what it expects.

    Under decryption, the homomorphic multiplication of `evalPhase` is the
    slot-wise product of plaintext vectors modulo the plaintext modulus.
    Combined with the reduction tree, this module shows that for a party
    count that is not a power of two the decrypted result can differ from
    the expected result. It also shows that the tree which carries odd
    slots up always agrees with it. */
module PsiFindings {
  import opened Results
  import opened Words
  import ReductionTree
  import PsiInputs

  /** The default plaintext modulus of the driver. */
  const PLAINTEXT_MODULUS: uint64 := 65537

  /** Slot-wise product modulo `t` of two plaintext vectors. */
  function SlotMul(t: uint64, a: seq<uint64>, b: seq<uint64>): (r: seq<uint64>)
    requires t > 0
  {
    seq(Min(|a|, |b|), i requires 0 <= i < Min(|a|, |b|) => (a[i] * b[i]) % t)
  }

  /** `SlotMul` as the abstract operation of the reduction tree. */
  function SlotMulOp(t: uint64): ((seq<uint64>, seq<uint64>) -> seq<uint64>)
    requires t > 0
  {
    (a: seq<uint64>, b: seq<uint64>) => SlotMul(t, a, b)
  }

  lemma MulModBoth(x: int, y: int, z: int, m: int)
    requires m > 0
    ensures (((x * y) % m) * z) % m == (x * ((y * z) % m)) % m
  {
    PsiInputs.MulModLeft(x * y, z, m);
    PsiInputs.MulModLeft(y * z, x, m);
    assert (x * y) * z == x * (y * z);
    assert ((y * z) % m) * x == x * ((y * z) % m);
    assert (y * z) * x == x * (y * z);
  }

  /** The slot-wise product is associative, so the tree theorems apply. */
  lemma SlotMulAssociative(t: uint64)
    requires t > 0
    ensures ReductionTree.Associative(SlotMulOp(t))
  {
    var op := SlotMulOp(t);
    forall a, b, c
      ensures op(op(a, b), c) == op(a, op(b, c))
    {
      var l, r := SlotMul(t, SlotMul(t, a, b), c), SlotMul(t, a, SlotMul(t, b, c));
      forall i | 0 <= i < |l|
        ensures l[i] == r[i]
      {
        MulModBoth(a[i], b[i], c[i], t);
      }
    }
  }

  /** The check at the end of the driver: every expected slot equals the
      decrypted one. */
  predicate Correct(expected: seq<uint64>, res: seq<uint64>)
  {
    |expected| <= |res| && forall i :: 0 <= i < |expected| ==> expected[i] == res[i]
  }

  /** Three parties with one slot each, the last of which lacks the item:
      the tree multiplies only the first two, so the decrypted result
      claims the item is shared while the expected result says it is not,
      and the driver reports the result incorrect. */
  lemma ThreePartiesDropLast()
    ensures var inputs: seq<seq<uint64>> := [[1], [1], [0]];
      && PsiInputs.Shaped(inputs, 1)
      && ReductionTree.EvalTree(SlotMulOp(PLAINTEXT_MODULUS), [0], inputs) == Ok([1])
      && PsiInputs.Expected(1, inputs) == [0]
      && !Correct(PsiInputs.Expected(1, inputs), [1])
  {
    var inputs: seq<seq<uint64>> := [[1], [1], [0]];
    var op := SlotMulOp(PLAINTEXT_MODULUS);
    SlotMulAssociative(PLAINTEXT_MODULUS);
    ReductionTree.TreeCombinesPrefix(op, [0], inputs);
    assert ReductionTree.Log2(3) == 1;
    assert inputs[..2] == [[1], [1]];
    assert ReductionTree.Prod(op, [[1], [1]]) == op([1], [1]) == [1];
    assert inputs[..1] == [[1]];
    assert inputs[..2][..1] == [[1]];
    assert PsiInputs.Expected(1, inputs[..1]) == [1];
    assert inputs[..2][..1] == inputs[..1];
    assert PsiInputs.Expected(1, inputs[..2]) == [1];
  }

  /** On 0/1 vectors of `n` slots the product modulo any `t >= 2` is the
      expected result: both are the logical AND. */
  lemma {:induction false} ProdIsExpected(t: uint64, n: nat, inputs: seq<seq<uint64>>)
    requires t >= 2
    requires |inputs| >= 1
    requires PsiInputs.Shaped(inputs, n) && PsiInputs.Binary(inputs)
    ensures ReductionTree.Prod(SlotMulOp(t), inputs) == PsiInputs.Expected(n, inputs)
  {
    var op := SlotMulOp(t);
    var init, last := inputs[..|inputs| - 1], inputs[|inputs| - 1];
    assert forall k :: 0 <= k < n ==> last[k] <= 1;
    if |inputs| == 1 {
      assert init == [];
      ProductWithOnes(last, n);
    } else {
      ProdIsExpected(t, n, init);
      var prev := PsiInputs.Expected(n, init);
      forall k | 0 <= k < n
        ensures prev[k] <= 1
      {
        PsiInputs.ExpectedIsAnd(n, init, k);
      }
      assert ReductionTree.Prod(op, inputs) == SlotMul(t, prev, last);
      BinaryProductsAgree(t, prev, last);
    }
  }

  /** Multiplying N ones by a 0/1 vector gives that vector. */
  lemma ProductWithOnes(input: seq<uint64>, n: nat)
    requires |input| == n
    requires forall k :: 0 <= k < n ==> input[k] <= 1
    ensures PsiInputs.MultiplyInto(PsiInputs.Ones(n), input) == input
  {
  }

  /** On 0/1 vectors the product modulo `t` and the product modulo 2^64
      agree. */
  lemma BinaryProductsAgree(t: uint64, a: seq<uint64>, b: seq<uint64>)
    requires t >= 2
    requires |a| == |b|
    requires forall k :: 0 <= k < |a| ==> a[k] <= 1 && b[k] <= 1
    ensures SlotMul(t, a, b) == PsiInputs.MultiplyInto(a, b)
  {
    forall k | 0 <= k < |a|
      ensures SlotMul(t, a, b)[k] == PsiInputs.MultiplyInto(a, b)[k]
    {
      BitProduct(a[k], b[k], t);
    }
  }

  lemma BitProduct(x: uint64, y: uint64, t: uint64)
    requires x <= 1 && y <= 1 && t >= 2
    ensures (x * y) % t == (x * y) % WORD_MODULUS == x * y
  {
    if x == 0 {
      assert x * y == 0;
    } else {
      assert x * y == y;
    }
  }

  /** The corrected tree's decrypted result always matches the expected
      result, whatever the number of parties. */
  lemma CarryTreeMatchesExpected(t: uint64, n: nat, inputs: seq<seq<uint64>>)
    requires t >= 2
    requires |inputs| >= 1
    requires PsiInputs.Shaped(inputs, n) && PsiInputs.Binary(inputs)
    ensures ReductionTree.EvalTreeCarry(SlotMulOp(t), inputs) == Ok(PsiInputs.Expected(n, inputs))
    ensures Correct(PsiInputs.Expected(n, inputs), ReductionTree.EvalTreeCarry(SlotMulOp(t), inputs).value)
  {
    SlotMulAssociative(t);
    ReductionTree.TreeCarryCombinesAll(SlotMulOp(t), inputs);
    ProdIsExpected(t, n, inputs);
  }

  /** With a power-of-two number of parties the tree as written is correct
      too. */
  lemma PowerOfTwoPartiesCorrect(t: uint64, n: nat, inputs: seq<seq<uint64>>, k: nat)
    requires t >= 2
    requires |inputs| == Pow2(k)
    requires PsiInputs.Shaped(inputs, n) && PsiInputs.Binary(inputs)
    ensures ReductionTree.EvalTree(SlotMulOp(t), [], inputs) == Ok(PsiInputs.Expected(n, inputs))
  {
    SlotMulAssociative(t);
    ReductionTree.TreeCombinesPrefix(SlotMulOp(t), [], inputs);
    ReductionTree.Log2OfPow2(k);
    assert inputs[..Pow2(k)] == inputs;
    ProdIsExpected(t, n, inputs);
  }
}
