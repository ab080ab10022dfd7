/** The party inputs of the PSI driver in psi/main.go and the result it
    expects: `OneHotEncodeCSV`, `genInputs` and `genTPCHInputs`.

    A party's input is a vector of N slots holding 0 or 1: slot k is 1 when
    the party holds item k. The expected result is the slot-wise product of
    all parties' vectors in `uint64` arithmetic, which on such vectors is
    the set intersection. */
module PsiInputs {
  import opened Results
  import opened Words

  // ---------------------------------------------------------------------
  // One-hot encoding of the parsed CSV records

  /** A CSV record after `strconv.Atoi` of each field: `None` where the
      field is not a number. */
  type Record = seq<Option<int>>

  /** The numbers parsed from some fields. */
  function FieldValues(fields: Record): set<int>
  {
    if |fields| == 0 then {}
    else FieldValues(fields[..|fields| - 1]) + (match fields[|fields| - 1] case Some(v) => {v} case None => {})
  }

  /** The numbers parsed from all records. */
  function Values(records: seq<Record>): set<int>
  {
    if |records| == 0 then {} else Values(records[..|records| - 1]) + FieldValues(records[|records| - 1])
  }

  /** `v` is parsed from some field of some record. */
  ghost predicate Occurs(records: seq<Record>, v: int)
  {
    exists i, j :: 0 <= i < |records| && 0 <= j < |records[i]| && records[i][j] == Some(v)
  }

  /** The one-hot vector of length `n` for a set of numbers; numbers outside
      `[0, n)` have no slot. */
  function OneHot(s: set<int>, n: nat): (r: seq<uint64>)
    ensures |r| == n
  {
    seq(n, k => if k in s then 1 else 0)
  }

  lemma {:induction false} FieldValuesMeans(fields: Record, v: int)
    ensures v in FieldValues(fields) <==> exists j :: 0 <= j < |fields| && fields[j] == Some(v)
  {
    if |fields| > 0 {
      var init := fields[..|fields| - 1];
      FieldValuesMeans(init, v);
      if exists j :: 0 <= j < |init| && init[j] == Some(v) {
        var j :| 0 <= j < |init| && init[j] == Some(v);
        assert fields[j] == Some(v);
      }
      if exists j :: 0 <= j < |fields| && fields[j] == Some(v) {
        var j :| 0 <= j < |fields| && fields[j] == Some(v);
        if j < |init| {
          assert init[j] == Some(v);
        }
      }
    }
  }

  /** `Values` collects exactly the numbers that occur in the records. */
  lemma {:induction false} ValuesMeans(records: seq<Record>, v: int)
    ensures v in Values(records) <==> Occurs(records, v)
  {
    if |records| > 0 {
      var init, last := records[..|records| - 1], records[|records| - 1];
      ValuesMeans(init, v);
      FieldValuesMeans(last, v);
      if Occurs(init, v) {
        var i, j :| 0 <= i < |init| && 0 <= j < |init[i]| && init[i][j] == Some(v);
        assert records[i] == init[i];
      }
      if Occurs(records, v) {
        var i, j :| 0 <= i < |records| && 0 <= j < |records[i]| && records[i][j] == Some(v);
        if i < |init| {
          assert init[i] == records[i];
        }
      }
    }
  }

  /** `OneHotEncodeCSV` after the file has been read and each field parsed:
      slot `num` is set for every parsed number with `0 <= num < n`;
      unparsable fields and numbers out of range are skipped. */
  method OneHotEncode(records: seq<Record>, n: nat) returns (r: seq<uint64>)
    ensures r == OneHot(Values(records), n)
    ensures |r| == n
    ensures forall k :: 0 <= k < n ==> (r[k] == 1 <==> Occurs(records, k)) && r[k] <= 1
  {
    r := seq(n, _ => 0);
    var i := 0;
    while i < |records|
      invariant 0 <= i <= |records|
      invariant r == OneHot(Values(records[..i]), n)
    {
      var record := records[i];
      var seen := Values(records[..i]);
      var j := 0;
      while j < |record|
        invariant 0 <= j <= |record|
        invariant r == OneHot(seen + FieldValues(record[..j]), n)
      {
        assert record[..j + 1][..j] == record[..j];
        match record[j] {
          case None =>
          case Some(num) =>
            if 0 <= num < n {
              r := r[num := 1];
            }
        }
        j := j + 1;
      }
      assert record[..j] == record;
      assert records[..i + 1][..i] == records[..i];
      i := i + 1;
    }
    assert records[..i] == records;
    forall k | 0 <= k < n
      ensures r[k] == 1 <==> Occurs(records, k)
    {
      ValuesMeans(records, k);
    }
  }

  /** The encoding depends only on which numbers occur: not on the order of
      the records or of their fields, nor on repetitions. */
  lemma OneHotOnlyOnOccurrence(a: seq<Record>, b: seq<Record>, n: nat)
    requires forall v :: Occurs(a, v) <==> Occurs(b, v)
    ensures OneHot(Values(a), n) == OneHot(Values(b), n)
  {
    forall k | 0 <= k < n
      ensures (k in Values(a)) == (k in Values(b))
    {
      ValuesMeans(a, k);
      ValuesMeans(b, k);
    }
  }

  /** For instance, reversing the records, or listing them twice. */
  lemma OneHotOrderAndRepetition(a: seq<Record>, n: nat)
    ensures OneHot(Values(Reverse(a)), n) == OneHot(Values(a), n)
    ensures OneHot(Values(a + a), n) == OneHot(Values(a), n)
  {
    forall v
      ensures Occurs(Reverse(a), v) <==> Occurs(a, v)
      ensures Occurs(a + a, v) <==> Occurs(a, v)
    {
      if Occurs(a, v) {
        var i, j :| 0 <= i < |a| && 0 <= j < |a[i]| && a[i][j] == Some(v);
        assert Reverse(a)[|a| - 1 - i] == a[i];
        assert (a + a)[i] == a[i];
      }
      if Occurs(Reverse(a), v) {
        var i, j :| 0 <= i < |a| && 0 <= j < |Reverse(a)[i]| && Reverse(a)[i][j] == Some(v);
        assert a[|a| - 1 - i] == Reverse(a)[i];
      }
      if Occurs(a + a, v) {
        var i, j :| 0 <= i < |a + a| && 0 <= j < |(a + a)[i]| && (a + a)[i][j] == Some(v);
        if i >= |a| {
          assert a[i - |a|] == (a + a)[i];
        } else {
          assert a[i] == (a + a)[i];
        }
      }
    }
    OneHotOnlyOnOccurrence(Reverse(a), a, n);
    OneHotOnlyOnOccurrence(a + a, a, n);
  }

  function Reverse<T>(s: seq<T>): (r: seq<T>)
    ensures |r| == |s|
    ensures forall i :: 0 <= i < |s| ==> r[i] == s[|s| - 1 - i]
  {
    seq(|s|, i requires 0 <= i < |s| => s[|s| - 1 - i])
  }

  // ---------------------------------------------------------------------
  // The expected result

  /** `*=` on `uint64`: the product wraps around modulo 2^64. */
  function MulWord(a: uint64, b: uint64): uint64
  {
    (a * b) % WORD_MODULUS
  }

  /** `for i := range input { exp[i] *= input[i] }`. An input longer than
      `exp` would index out of range. */
  function MultiplyInto(exp: seq<uint64>, input: seq<uint64>): (r: seq<uint64>)
    requires |input| <= |exp|
    ensures |r| == |exp|
  {
    seq(|exp|, i requires 0 <= i < |exp| => if i < |input| then MulWord(exp[i], input[i]) else exp[i])
  }

  /** N ones. */
  function Ones(n: nat): (r: seq<uint64>)
    ensures |r| == n
  {
    seq(n, _ => 1)
  }

  /** Every party's input has `n` slots. */
  ghost predicate Shaped(inputs: seq<seq<uint64>>, n: nat)
  {
    forall p :: 0 <= p < |inputs| ==> |inputs[p]| == n
  }

  /** The expected result after the given parties, folded in party order. */
  function Expected(n: nat, inputs: seq<seq<uint64>>): (r: seq<uint64>)
    requires Shaped(inputs, n)
    ensures |r| == n
  {
    if |inputs| == 0 then Ones(n)
    else MultiplyInto(Expected(n, inputs[..|inputs| - 1]), inputs[|inputs| - 1])
  }

  /** The product of slot `k` over all parties, in unbounded integers. */
  function SlotProduct(inputs: seq<seq<uint64>>, k: nat): int
    requires forall p :: 0 <= p < |inputs| ==> k < |inputs[p]|
  {
    if |inputs| == 0 then 1 else SlotProduct(inputs[..|inputs| - 1], k) * inputs[|inputs| - 1][k]
  }

  /** Reducing before multiplying does not change the remainder. */
  lemma MulModLeft(x: int, c: int, m: int)
    requires m > 0
    ensures ((x % m) * c) % m == (x * c) % m
  {
    var q := x / m;
    assert x == q * m + x % m;
    assert x * c == (x % m) * c + (q * c) * m by {
      assert x * c == (q * m + x % m) * c;
    }
    MultipleMod((x % m) * c, q * c, m);
  }

  /** Slot `k` of the expected result is the product of the parties' slot
      `k`, wrapped modulo 2^64. */
  lemma {:induction false} ExpectedIsWrappedProduct(n: nat, inputs: seq<seq<uint64>>, k: nat)
    requires Shaped(inputs, n)
    requires k < n
    ensures Expected(n, inputs)[k] == SlotProduct(inputs, k) % WORD_MODULUS
  {
    if |inputs| > 0 {
      var init, last := inputs[..|inputs| - 1], inputs[|inputs| - 1];
      ExpectedIsWrappedProduct(n, init, k);
      MulModLeft(SlotProduct(init, k), last[k], WORD_MODULUS);
    }
  }

  /** Every slot of every party is 0 or 1. */
  ghost predicate Binary(inputs: seq<seq<uint64>>)
  {
    forall p, k :: 0 <= p < |inputs| && 0 <= k < |inputs[p]| ==> inputs[p][k] <= 1
  }

  /** On 0/1 inputs the expected result is the logical AND of the parties'
      slots: slot `k` is 1 exactly when every party holds item `k`. */
  lemma {:induction false} ExpectedIsAnd(n: nat, inputs: seq<seq<uint64>>, k: nat)
    requires Shaped(inputs, n) && Binary(inputs)
    requires k < n
    ensures Expected(n, inputs)[k] <= 1
    ensures Expected(n, inputs)[k] == 1 <==> forall p :: 0 <= p < |inputs| ==> inputs[p][k] == 1
  {
    if |inputs| > 0 {
      var init, last := inputs[..|inputs| - 1], inputs[|inputs| - 1];
      ExpectedIsAnd(n, init, k);
      if forall p :: 0 <= p < |init| ==> init[p][k] == 1 {
        if last[k] == 1 {
          forall p | 0 <= p < |inputs|
            ensures inputs[p][k] == 1
          {
            if p < |init| {
              assert inputs[p] == init[p];
            }
          }
        }
      } else {
        var p :| 0 <= p < |init| && init[p][k] != 1;
        assert inputs[p] == init[p];
      }
    }
  }

  // ---------------------------------------------------------------------
  // Input generators

  /** The share of random draws that leave a slot unset. */
  const THRESHOLD: real := 0.3

  /** The item every party of `genInputs` holds. */
  const FORCED_SLOT: nat := 4

  /** `genInputs`: slot `i` of party `p` is 1 when the uniform draw
      `draw(p, i)` from [0, 1) exceeds 0.3, and slot 4 is always 1. The
      draws are a parameter. */
  method GenInputs(parties: nat, n: nat, draw: (nat, nat) -> real) returns (inputs: seq<seq<uint64>>, expected: seq<uint64>)
    ensures |inputs| == parties && Shaped(inputs, n)
    ensures forall p, i :: 0 <= p < parties && 0 <= i < n ==>
      inputs[p][i] == (if draw(p, i) > THRESHOLD || i == FORCED_SLOT then 1 else 0)
    ensures expected == Expected(n, inputs)
    ensures FORCED_SLOT < n ==> expected[FORCED_SLOT] == 1
    ensures forall i :: 0 <= i < n ==>
      (expected[i] == 1 <==> i == FORCED_SLOT || forall p :: 0 <= p < parties ==> draw(p, i) > THRESHOLD)
  {
    expected := Ones(n);
    inputs := [];
    var p := 0;
    while p < parties
      invariant 0 <= p <= parties
      invariant |inputs| == p && Shaped(inputs, n)
      invariant forall q, i :: 0 <= q < p && 0 <= i < n ==>
        inputs[q][i] == (if draw(q, i) > THRESHOLD || i == FORCED_SLOT then 1 else 0)
      invariant expected == Expected(n, inputs)
    {
      var input, next := GenParty(p, n, draw, expected);
      assert (inputs + [input])[..p] == inputs;
      inputs, expected := inputs + [input], next;
      p := p + 1;
    }
    assert Binary(inputs);
    forall i | 0 <= i < n
      ensures expected[i] <= 1
      ensures expected[i] == 1 <==> i == FORCED_SLOT || forall q :: 0 <= q < parties ==> draw(q, i) > THRESHOLD
    {
      ExpectedIsAnd(n, inputs, i);
    }
  }

  /** One party of `genInputs`: its input, and the expected result with that
      input multiplied in, slot by slot. */
  method GenParty(p: nat, n: nat, draw: (nat, nat) -> real, expected: seq<uint64>) returns (input: seq<uint64>, next: seq<uint64>)
    requires |expected| == n
    ensures |input| == n
    ensures forall i :: 0 <= i < n ==> input[i] == (if draw(p, i) > THRESHOLD || i == FORCED_SLOT then 1 else 0)
    ensures next == MultiplyInto(expected, input)
  {
    input := [];
    next := expected;
    var i := 0;
    while i < n
      invariant 0 <= i <= n
      invariant |input| == i
      invariant forall j :: 0 <= j < i ==> input[j] == (if draw(p, j) > THRESHOLD || j == FORCED_SLOT then 1 else 0)
      invariant next == MultiplyInto(expected, input)
    {
      var bit: uint64 := if draw(p, i) > THRESHOLD || i == FORCED_SLOT then 1 else 0;
      next := next[i := MulWord(next[i], bit)];
      input := input + [bit];
      i := i + 1;
    }
  }

  /** `genTPCHInputs`: party `p`'s input is the one-hot encoding of its
      records, and the expected result is their product. */
  method GenTPCHInputs(partyRecords: seq<seq<Record>>, n: nat) returns (inputs: seq<seq<uint64>>, expected: seq<uint64>)
    ensures |inputs| == |partyRecords| && Shaped(inputs, n)
    ensures forall p :: 0 <= p < |inputs| ==> inputs[p] == OneHot(Values(partyRecords[p]), n)
    ensures expected == Expected(n, inputs)
    ensures forall k :: 0 <= k < n ==>
      (expected[k] == 1 <==> forall p :: 0 <= p < |partyRecords| ==> Occurs(partyRecords[p], k))
  {
    expected := Ones(n);
    inputs := [];
    var p := 0;
    while p < |partyRecords|
      invariant 0 <= p <= |partyRecords|
      invariant |inputs| == p && Shaped(inputs, n)
      invariant forall q :: 0 <= q < p ==> inputs[q] == OneHot(Values(partyRecords[q]), n)
      invariant expected == Expected(n, inputs)
    {
      var encoded := OneHotEncode(partyRecords[p], n);
      var next := MultiplyAll(expected, encoded);
      assert (inputs + [encoded])[..p] == inputs;
      inputs, expected := inputs + [encoded], next;
      p := p + 1;
    }
    assert Binary(inputs);
    forall k | 0 <= k < n
      ensures expected[k] == 1 <==> forall q :: 0 <= q < |partyRecords| ==> Occurs(partyRecords[q], k)
    {
      ExpectedIsAnd(n, inputs, k);
      forall q | 0 <= q < |partyRecords|
        ensures inputs[q][k] == 1 <==> Occurs(partyRecords[q], k)
      {
        ValuesMeans(partyRecords[q], k);
      }
    }
  }

  /** The inner loop of `genTPCHInputs` over one party's input. */
  method MultiplyAll(expected: seq<uint64>, input: seq<uint64>) returns (next: seq<uint64>)
    requires |input| <= |expected|
    ensures next == MultiplyInto(expected, input)
  {
    next := expected;
    var i := 0;
    while i < |input|
      invariant 0 <= i <= |input|
      invariant next == MultiplyInto(expected, input[..i])
    {
      next := next[i := MulWord(next[i], input[i])];
      i := i + 1;
    }
    assert input[..i] == input;
  }
}
