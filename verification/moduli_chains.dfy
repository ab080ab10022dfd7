/** The modulus-chain generation of bfv/utils.go (`genModuli`).

    The bit sizes requested by the three chains Q1, P and Q2 are tallied;
    each size is checked against the 60-bit bound; for every distinct size
    the prime search produces as many primes as that size was requested;
    and the primes are then handed out to Q1, P and Q2, in that order, each
    chain entry taking the front of its size's list. */
module ModuliChains {
  import opened Results
  import opened Words
  import NTTPrimes

  /** Why `genModuli` fails. */
  datatype ModuliError =
    | ModuliTooLarge              // "provided moduli must be smaller than 61" (Q1 or Q2)
    | SpecialTooLarge             // "provided P must be smaller than 61"
    | SearchFailed(size: uint64)  // the prime search for this size ran out of fuel

  /** Taking `[0]` of an empty list panics with an index out of range. */
  datatype AssignError = IndexOutOfRange(size: uint64)

  /** The three chains of primes `genModuli` returns. */
  datatype Chains = Chains(q1: seq<uint64>, p: seq<uint64>, q2: seq<uint64>)

  /** How often `b` occurs in `s`. */
  function Occurrences(s: seq<uint64>, b: uint64): nat
  {
    if |s| == 0 then 0 else (if s[0] == b then 1 else 0) + Occurrences(s[1..], b)
  }

  /** How many earlier entries of `s` ask for the same size as entry `i`:
      the position in its size's list that entry `i` receives. */
  function Rank(s: seq<uint64>, i: nat): nat
    requires i < |s|
  {
    Occurrences(s[..i], s[i])
  }

  /** How many primes of size `b` the three chains request together. */
  function Requested(q1: seq<uint64>, p: seq<uint64>, q2: seq<uint64>, b: uint64): nat
  {
    Occurrences(q1, b) + Occurrences(p, b) + Occurrences(q2, b)
  }

  /** A map lookup in Go: a missing key reads as the zero value. */
  function Count(m: map<uint64, nat>, b: uint64): nat
  {
    if b in m then m[b] else 0
  }

  function Queue(m: map<uint64, seq<uint64>>, b: uint64): seq<uint64>
  {
    if b in m then m[b] else []
  }

  /** `primesbitlen[uint64(x)]++` for every `x` of `s`, front to back. */
  function Tally(m: map<uint64, nat>, s: seq<uint64>): (r: map<uint64, nat>)
    decreases |s|
  {
    if |s| == 0 then m else Tally(m[s[0] := Count(m, s[0]) + 1], s[1..])
  }

  /** The tally of the three chains (bfv/utils.go lines 11-36, when no size
      is rejected). */
  function SizeCounts(q1: seq<uint64>, p: seq<uint64>, q2: seq<uint64>): map<uint64, nat>
  {
    Tally(Tally(Tally(map[], q1), p), q2)
  }

  /** The size checks of the three loops. The first loop panics on the first
      size of Q1 above 60; the second, reached only when Q1 passed, on P;
      the third on Q2. */
  function CheckSizes(q1: seq<uint64>, p: seq<uint64>, q2: seq<uint64>): (r: Option<ModuliError>)
    ensures r.None? <==> SizesBounded(q1 + p + q2)
    ensures r == Some(SpecialTooLarge) <==> SizesBounded(q1) && !SizesBounded(p)
    ensures r == Some(ModuliTooLarge) <==>
      !SizesBounded(q1) || (SizesBounded(q1) && SizesBounded(p) && !SizesBounded(q2))
  {
    BoundedConcat(q1, p, q2);
    if exists i :: 0 <= i < |q1| && q1[i] > NTTPrimes.MAX_LOG_Q then Some(ModuliTooLarge)
    else if exists i :: 0 <= i < |p| && p[i] > NTTPrimes.MAX_LOG_Q then Some(SpecialTooLarge)
    else if exists i :: 0 <= i < |q2| && q2[i] > NTTPrimes.MAX_LOG_Q then Some(ModuliTooLarge)
    else None
  }

  /** Every size in `s` is at most 60 bits. */
  ghost predicate SizesBounded(s: seq<uint64>)
  {
    forall i :: 0 <= i < |s| ==> s[i] <= NTTPrimes.MAX_LOG_Q
  }

  /** One assignment loop: entry `i` takes the front of the list for its
      size, and that list loses its front. */
  function Assign(queues: map<uint64, seq<uint64>>, sizes: seq<uint64>)
    : (r: Result<(seq<uint64>, map<uint64, seq<uint64>>), AssignError>)
    decreases |sizes|
  {
    if |sizes| == 0 then Ok(([], queues))
    else
      var b := sizes[0];
      var q := Queue(queues, b);
      if |q| == 0 then Err(IndexOutOfRange(b))
      else
        match Assign(queues[b := q[1..]], sizes[1..])
        case Err(e) => Err(e)
        case Ok((chain, rest)) => Ok(([q[0]] + chain, rest))
  }

  /** Every size has at least as many primes queued as `sizes` asks for. */
  ghost predicate Enough(queues: map<uint64, seq<uint64>>, sizes: seq<uint64>)
  {
    forall i :: 0 <= i < |sizes| ==> Occurrences(sizes, sizes[i]) <= |Queue(queues, sizes[i])|
  }

  /** The list of primes found for one size: the search for `count` primes
      of `size` bits stopped, and this is what it returned. */
  ghost predicate GeneratedFor(isPrime: uint64 -> bool, size: uint64, logN: uint64, count: nat, primes: seq<uint64>)
  {
    && size <= NTTPrimes.MAX_LOG_Q
    && exists n :: NTTPrimes.FirstStop(isPrime, size, logN, count, n) && primes == NTTPrimes.PrimesAmong(isPrime, size, logN, n)
  }

  lemma BoundedConcat(q1: seq<uint64>, p: seq<uint64>, q2: seq<uint64>)
    ensures SizesBounded(q1 + p + q2) <==> SizesBounded(q1) && SizesBounded(p) && SizesBounded(q2)
  {
    var all := q1 + p + q2;
    if SizesBounded(q1) && SizesBounded(p) && SizesBounded(q2) {
      forall i | 0 <= i < |all|
        ensures all[i] <= NTTPrimes.MAX_LOG_Q
      {
        if i < |q1| {
          assert all[i] == q1[i];
        } else if i < |q1| + |p| {
          assert all[i] == p[i - |q1|];
        } else {
          assert all[i] == q2[i - |q1| - |p|];
        }
      }
    }
    if SizesBounded(all) {
      forall i | 0 <= i < |q1| ensures q1[i] <= NTTPrimes.MAX_LOG_Q { assert all[i] == q1[i]; }
      forall i | 0 <= i < |p| ensures p[i] <= NTTPrimes.MAX_LOG_Q { assert all[|q1| + i] == p[i]; }
      forall i | 0 <= i < |q2| ensures q2[i] <= NTTPrimes.MAX_LOG_Q { assert all[|q1| + |p| + i] == q2[i]; }
    }
  }

  /** The three assignment loops of bfv/utils.go lines 45-62: Q1, then P,
      then Q2, each from what the previous one left. */
  function AssignChains(generated: map<uint64, seq<uint64>>, q1: seq<uint64>, p: seq<uint64>, q2: seq<uint64>)
    : (r: Result<Chains, AssignError>)
  {
    var (c1, left1) :- Assign(generated, q1);
    var (c2, left2) :- Assign(left1, p);
    var (c3, _) :- Assign(left2, q2);
    Ok(Chains(c1, c2, c3))
  }

  /** `genModuli`, with each prime search bounded by `fuel` rounds. On
      success `generated` is the per-size map of primes before any was
      handed out. Go slice lengths are below 2^63, so the tallies fit their
      `uint64` counters. */
  method GenModuli(isPrime: uint64 -> bool, q1: seq<uint64>, p: seq<uint64>, q2: seq<uint64>, logN: uint64, fuel: nat)
    returns (r: Result<Chains, ModuliError>, generated: map<uint64, seq<uint64>>)
    requires |q1| + |p| + |q2| < WORD_MODULUS
    ensures CheckSizes(q1, p, q2).Some? <==> r.Err? && !r.error.SearchFailed?
    ensures CheckSizes(q1, p, q2).Some? ==> r == Err(CheckSizes(q1, p, q2).value)
    ensures r.Ok? ==>
      && generated.Keys == (set b | b in q1 + p + q2)
      && (forall b :: b in generated ==>
            |generated[b]| == Requested(q1, p, q2, b) &&
            GeneratedFor(isPrime, b, logN, Requested(q1, p, q2, b), generated[b]))
      && AssignChains(generated, q1, p, q2) == Ok(r.value)
      && HandedOut(generated, q1, p, q2, r.value)
    ensures r.Err? && r.error.SearchFailed? ==>
      var b := r.error.size;
      && b in q1 + p + q2
      && NTTPrimes.NoStopWithin(isPrime, b as nat, logN as nat, Requested(q1, p, q2, b), 2 * fuel)
  {
    generated := map[];
    var bad := CheckSizes(q1, p, q2);
    if bad.Some? {
      return Err(bad.value), generated;
    }
    var counts := SizeCounts(q1, p, q2);
    SizeCountsAre(q1, p, q2);
    var pending := counts.Keys;
    while pending != {}
      invariant pending <= counts.Keys
      invariant generated.Keys == counts.Keys - pending
      invariant forall b :: b in generated ==>
        |generated[b]| == Requested(q1, p, q2, b) &&
        GeneratedFor(isPrime, b, logN, Requested(q1, p, q2, b), generated[b])
      decreases pending
    {
      var b :| b in pending;
      var levels := counts[b];
      InSomeChain(q1, p, q2, b);
      OccurrencesBound(q1 + p + q2, b);
      OccurrencesConcat(q1, p, q2, b);
      var found, steps := NTTPrimes.GenerateNTTPrimes(isPrime, b, logN, levels, fuel);
      if found.Err? {
        assert b <= NTTPrimes.MAX_LOG_Q;
        assert found.error.OutOfFuel?;
        assert levels as nat == Requested(q1, p, q2, b);
        return Err(SearchFailed(b)), generated;
      }
      NTTPrimes.StopResult(isPrime, b, logN, levels, steps);
      generated := generated[b := found.value];
      pending := pending - {b};
    }
    AssignChainsContents(generated, q1, p, q2);
    r := Ok(AssignChains(generated, q1, p, q2).value);
  }

  /** Every size of a chain that passed the checks is at most 60 bits. */
  lemma InSomeChain(q1: seq<uint64>, p: seq<uint64>, q2: seq<uint64>, b: uint64)
    requires CheckSizes(q1, p, q2).None?
    requires b in q1 + p + q2
    ensures b <= NTTPrimes.MAX_LOG_Q
  {
    var i :| 0 <= i < |q1 + p + q2| && (q1 + p + q2)[i] == b;
  }

  lemma {:induction false} OccurrencesBound(s: seq<uint64>, b: uint64)
    ensures Occurrences(s, b) <= |s|
    ensures Occurrences(s, b) > 0 <==> b in s
  {
    if |s| > 0 {
      OccurrencesBound(s[1..], b);
      assert s == [s[0]] + s[1..];
    }
  }

  lemma {:induction false} OccurrencesAppend(a: seq<uint64>, c: seq<uint64>, b: uint64)
    ensures Occurrences(a + c, b) == Occurrences(a, b) + Occurrences(c, b)
  {
    if |a| > 0 {
      assert (a + c)[1..] == a[1..] + c;
      OccurrencesAppend(a[1..], c, b);
    } else {
      assert a + c == c;
    }
  }

  lemma OccurrencesConcat(q1: seq<uint64>, p: seq<uint64>, q2: seq<uint64>, b: uint64)
    ensures Occurrences(q1 + p + q2, b) == Requested(q1, p, q2, b)
  {
    OccurrencesAppend(q1 + p, q2, b);
    OccurrencesAppend(q1, p, b);
  }

  /** Tallying `s` adds its occurrences to every count and its sizes to the
      keys. */
  lemma {:induction false} TallyCounts(m: map<uint64, nat>, s: seq<uint64>)
    ensures Tally(m, s).Keys == m.Keys + (set b | b in s)
    ensures forall b :: Count(Tally(m, s), b) == Count(m, b) + Occurrences(s, b)
    decreases |s|
  {
    if |s| > 0 {
      var m' := m[s[0] := Count(m, s[0]) + 1];
      TallyCounts(m', s[1..]);
      assert s == [s[0]] + s[1..];
      assert (set b | b in s) == {s[0]} + (set b | b in s[1..]);
    }
  }

  /** The tally of the three chains counts, for every size, the primes
      requested of it, and has exactly the requested sizes as keys. */
  lemma SizeCountsAre(q1: seq<uint64>, p: seq<uint64>, q2: seq<uint64>)
    ensures SizeCounts(q1, p, q2).Keys == (set b | b in q1 + p + q2)
    ensures forall b :: b in SizeCounts(q1, p, q2) ==> SizeCounts(q1, p, q2)[b] == Requested(q1, p, q2, b)
  {
    var m0: map<uint64, nat> := map[];
    TallyCounts(m0, q1);
    TallyCounts(Tally(m0, q1), p);
    TallyCounts(Tally(Tally(m0, q1), p), q2);
    forall b | b in SizeCounts(q1, p, q2)
      ensures SizeCounts(q1, p, q2)[b] == Requested(q1, p, q2, b)
    {
      assert Count(SizeCounts(q1, p, q2), b) == Requested(q1, p, q2, b);
    }
    ElementsAppend(q1 + p, q2);
    ElementsAppend(q1, p);
  }

  lemma ElementsAppend(a: seq<uint64>, c: seq<uint64>)
    ensures (set b | b in a + c) == (set b | b in a) + (set b | b in c)
  {
  }

  /** When every size has enough primes queued, the assignment loop hands
      entry `i` the element of its size's list at its rank: the lists are
      consumed front to back. */
  lemma {:induction false} AssignContents(queues: map<uint64, seq<uint64>>, sizes: seq<uint64>)
    requires Enough(queues, sizes)
    ensures Assign(queues, sizes).Ok?
    ensures |Assign(queues, sizes).value.0| == |sizes|
    ensures forall i :: 0 <= i < |sizes| ==>
      Rank(sizes, i) < |Queue(queues, sizes[i])| &&
      Assign(queues, sizes).value.0[i] == Queue(queues, sizes[i])[Rank(sizes, i)]
    ensures forall b ::
      Occurrences(sizes, b) <= |Queue(queues, b)| &&
      Queue(Assign(queues, sizes).value.1, b) == Queue(queues, b)[Occurrences(sizes, b)..]
    decreases |sizes|
  {
    AssignFillsChain(queues, sizes);
    AssignLeftover(queues, sizes);
  }

  /** With enough primes per size the loop fills its chain, entry `i`
      taking the element at its rank. */
  lemma {:induction false} AssignFillsChain(queues: map<uint64, seq<uint64>>, sizes: seq<uint64>)
    requires Enough(queues, sizes)
    ensures Assign(queues, sizes).Ok?
    ensures |Assign(queues, sizes).value.0| == |sizes|
    ensures forall i :: 0 <= i < |sizes| ==>
      Rank(sizes, i) < |Queue(queues, sizes[i])| &&
      Assign(queues, sizes).value.0[i] == Queue(queues, sizes[i])[Rank(sizes, i)]
    decreases |sizes|
  {
    if |sizes| > 0 {
      var b := sizes[0];
      var q := Queue(queues, b);
      var rest := sizes[1..];
      var queues' := queues[b := q[1..]];
      assert |q| >= 1 by {
        assert Occurrences(sizes, sizes[0]) <= |Queue(queues, sizes[0])|;
      }
      forall j | 0 <= j < |rest|
        ensures Occurrences(rest, rest[j]) <= |Queue(queues', rest[j])|
      {
        assert rest[j] == sizes[j + 1];
      }
      AssignFillsChain(queues', rest);
      var chain := Assign(queues', rest).value.0;
      assert Assign(queues, sizes).value.0 == [q[0]] + chain;
      forall i | 0 < i < |sizes|
        ensures Rank(sizes, i) == (if sizes[i] == b then 1 else 0) + Rank(rest, i - 1)
      {
        assert sizes[..i][1..] == rest[..i - 1];
        assert sizes[i] == rest[i - 1];
      }
    }
  }

  /** A successful assignment loop leaves each size's list without exactly
      the front it consumed. */
  lemma {:induction false} AssignLeftover(queues: map<uint64, seq<uint64>>, sizes: seq<uint64>)
    requires Assign(queues, sizes).Ok?
    ensures forall b ::
      Occurrences(sizes, b) <= |Queue(queues, b)| &&
      Queue(Assign(queues, sizes).value.1, b) == Queue(queues, b)[Occurrences(sizes, b)..]
    decreases |sizes|
  {
    if |sizes| > 0 {
      var b := sizes[0];
      var q := Queue(queues, b);
      var queues' := queues[b := q[1..]];
      AssignLeftover(queues', sizes[1..]);
      assert Assign(queues, sizes).value.1 == Assign(queues', sizes[1..]).value.1;
      forall c
        ensures Occurrences(sizes, c) <= |Queue(queues, c)|
        ensures Queue(Assign(queues, sizes).value.1, c) == Queue(queues, c)[Occurrences(sizes, c)..]
      {
        if c == b {
          assert Queue(queues', c) == q[1..];
        } else {
          assert Queue(queues', c) == Queue(queues, c);
        }
      }
    }
  }

  /** Running the loop over `a` and then over `c` is running it over
      `a + c`. */
  lemma {:induction false} AssignAppend(queues: map<uint64, seq<uint64>>, a: seq<uint64>, c: seq<uint64>)
    ensures Assign(queues, a + c) ==
      match Assign(queues, a)
      case Err(e) => Err(e)
      case Ok((ca, left)) =>
        match Assign(left, c)
        case Err(e) => Err(e)
        case Ok((cc, left')) => Ok((ca + cc, left'))
    decreases |a|
  {
    if |a| == 0 {
      assert a + c == c;
      var none: seq<uint64> := [];
      if Assign(queues, c).Ok? {
        assert none + Assign(queues, c).value.0 == Assign(queues, c).value.0;
      }
    } else {
      var q := Queue(queues, a[0]);
      assert (a + c)[0] == a[0];
      assert (a + c)[1..] == a[1..] + c;
      if |q| > 0 {
        var queues' := queues[a[0] := q[1..]];
        AssignAppend(queues', a[1..], c);
        if Assign(queues', a[1..]).Ok? {
          var (ca, left) := Assign(queues', a[1..]).value;
          if Assign(left, c).Ok? {
            var cc := Assign(left, c).value.0;
            assert [q[0]] + (ca + cc) == ([q[0]] + ca) + cc;
          }
        }
      }
    }
  }

  /** What the three chains receive: reading Q1, P and Q2 as one list of
      sizes, entry `k` receives the element of its size's list at its rank,
      so the lists are consumed front to back in that order. */
  ghost predicate HandedOut(generated: map<uint64, seq<uint64>>, q1: seq<uint64>, p: seq<uint64>, q2: seq<uint64>, c: Chains)
  {
    var sizes, chain := q1 + p + q2, c.q1 + c.p + c.q2;
    && |c.q1| == |q1| && |c.p| == |p| && |c.q2| == |q2|
    && forall k :: 0 <= k < |sizes| ==>
         Rank(sizes, k) < |Queue(generated, sizes[k])| &&
         chain[k] == Queue(generated, sizes[k])[Rank(sizes, k)]
  }

  /** The three loops are one loop over Q1, P and Q2 in turn. */
  lemma AssignChainsIsOneLoop(generated: map<uint64, seq<uint64>>, q1: seq<uint64>, p: seq<uint64>, q2: seq<uint64>)
    ensures AssignChains(generated, q1, p, q2).Ok? <==> Assign(generated, q1 + p + q2).Ok?
    ensures AssignChains(generated, q1, p, q2).Ok? ==>
      var c := AssignChains(generated, q1, p, q2).value;
      c.q1 + c.p + c.q2 == Assign(generated, q1 + p + q2).value.0
  {
    AssignAppend(generated, q1 + p, q2);
    AssignAppend(generated, q1, p);
  }

  /** With one prime per request of each size, no assignment loop runs past
      a list, and the chains receive the elements `HandedOut` describes. */
  lemma AssignChainsContents(generated: map<uint64, seq<uint64>>, q1: seq<uint64>, p: seq<uint64>, q2: seq<uint64>)
    requires forall b :: b in q1 + p + q2 ==> |Queue(generated, b)| == Requested(q1, p, q2, b)
    ensures AssignChains(generated, q1, p, q2).Ok?
    ensures HandedOut(generated, q1, p, q2, AssignChains(generated, q1, p, q2).value)
  {
    var sizes := q1 + p + q2;
    forall k | 0 <= k < |sizes|
      ensures Occurrences(sizes, sizes[k]) <= |Queue(generated, sizes[k])|
    {
      OccurrencesConcat(q1, p, q2, sizes[k]);
    }
    AssignContents(generated, sizes);
    AssignChainsIsOneLoop(generated, q1, p, q2);
    AssignLengths(generated, q1, p, q2);
  }

  /** Each loop fills its chain to the length of its list of sizes. */
  lemma AssignLengths(generated: map<uint64, seq<uint64>>, q1: seq<uint64>, p: seq<uint64>, q2: seq<uint64>)
    requires AssignChains(generated, q1, p, q2).Ok?
    ensures var c := AssignChains(generated, q1, p, q2).value;
      |c.q1| == |q1| && |c.p| == |p| && |c.q2| == |q2|
  {
    var left1 := Assign(generated, q1).value.1;
    AssignLength(generated, q1);
    AssignLength(left1, p);
    AssignLength(Assign(left1, p).value.1, q2);
  }

  lemma {:induction false} AssignLength(queues: map<uint64, seq<uint64>>, sizes: seq<uint64>)
    ensures Assign(queues, sizes).Ok? ==> |Assign(queues, sizes).value.0| == |sizes|
    decreases |sizes|
  {
    if |sizes| > 0 {
      var q := Queue(queues, sizes[0]);
      if |q| > 0 {
        AssignLength(queues[sizes[0] := q[1..]], sizes[1..]);
      }
    }
  }

  /** Two entries asking for the same size get different ranks, the later
      one a higher rank: no position of a list is handed out twice. */
  lemma NoPositionTwice(sizes: seq<uint64>, i: nat, j: nat)
    requires i < j < |sizes|
    ensures sizes[i] == sizes[j] ==> Rank(sizes, i) < Rank(sizes, j)
    ensures Rank(sizes, i) <= Occurrences(sizes[..j], sizes[i])
  {
    var b := sizes[i];
    assert sizes[..j] == sizes[..i] + sizes[i..j];
    OccurrencesAppend(sizes[..i], sizes[i..j], b);
    assert sizes[i..j][0] == b;
  }

  /** If the search returned no prime twice for any one size, then no two
      chain entries asking for the same size receive the same prime. */
  lemma SameSizeEntriesDiffer(generated: map<uint64, seq<uint64>>, q1: seq<uint64>, p: seq<uint64>, q2: seq<uint64>,
                              c: Chains, i: nat, j: nat)
    requires HandedOut(generated, q1, p, q2, c)
    requires forall b :: b in generated ==> NTTPrimes.Distinct(generated[b])
    requires i < j < |q1 + p + q2|
    requires (q1 + p + q2)[i] == (q1 + p + q2)[j]
    ensures (c.q1 + c.p + c.q2)[i] != (c.q1 + c.p + c.q2)[j]
  {
    var sizes := q1 + p + q2;
    NoPositionTwice(sizes, i, j);
    var b := sizes[i];
    assert b in generated by {
      assert Rank(sizes, i) < |Queue(generated, b)|;
    }
  }
}
