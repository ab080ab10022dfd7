/** The NTT-friendly prime search of bfv/utils.go (`generateNTTPrimes`).

    Starting from 2^logQ + 1, the search walks two candidates apart in steps
    of 2N = 2 << logN: `y` downward and `x` upward, both wrapping around as
    `uint64` values do. Each round tests `y` and then `x` with the external
    primality test, collecting the primes, and stops as soon as `levels`
    primes were collected. The primality test (`ring.IsPrime`) is a
    parameter. The Go loop need not terminate (for `levels == 0` it never
    does), so the model bounds the number of rounds by a `fuel` argument. */
module NTTPrimes {
  import opened Results
  import opened Words

  /** Largest accepted bit size of a prime. */
  const MAX_LOG_Q: nat := 60

  datatype SearchError =
    | LogQTooLarge   // panic "logQ must be between 1 and 60"
    | OutOfFuel      // the search had not finished within the allotted rounds

  /** `1 << logQ`. */
  function QPow2(logQ: nat): (r: uint64)
    requires logQ <= MAX_LOG_Q
    ensures r == Pow2(logQ) <= 0x1000_0000_0000_0000
  {
    Pow2Monotone(logQ, MAX_LOG_Q);
    Pow2Of64();
    Pow2(logQ)
  }

  /** `2 << logN` on `uint64`: the shifted-out bits are lost, so the step is 0
      once logN reaches 63. */
  function TwoN(logN: nat): (r: uint64)
    ensures r == (2 * Pow2(logN)) % WORD_MODULUS
    ensures logN <= 62 ==> r == Pow2(logN + 1)
    ensures logN > 62 ==> r == 0
  {
    if logN <= 62 then
      Pow2Below64(logN + 1);
      Pow2(logN + 1)
    else
      Pow2Add(64, logN - 63);
      Pow2Of64();
      MultipleMod(0, Pow2(logN - 63), WORD_MODULUS);
      0
  }

  /** Value of `y` after `j` rounds. */
  function Down(start: uint64, step: uint64, j: nat): uint64
  {
    if j == 0 then start else WrapSub(Down(start, step, j - 1), step)
  }

  /** Value of `x` after `j` rounds. */
  function Up(start: uint64, step: uint64, j: nat): uint64
  {
    if j == 0 then start else WrapAdd(Up(start, step, j - 1), step)
  }

  /** The first value the search tests on both sides. */
  function Start(logQ: nat): uint64
    requires logQ <= MAX_LOG_Q
  {
    QPow2(logQ) + 1
  }

  /** The `i`-th value tested: `y` of round i/2 for even `i`, `x` of round
      i/2 for odd `i`. */
  function Candidate(logQ: nat, logN: nat, i: nat): uint64
    requires logQ <= MAX_LOG_Q
  {
    if i % 2 == 0 then Down(Start(logQ), TwoN(logN), i / 2)
    else Up(Start(logQ), TwoN(logN), i / 2)
  }

  /** The primes among the first `n` values tested, in the order found. */
  function PrimesAmong(isPrime: uint64 -> bool, logQ: nat, logN: nat, n: nat): seq<uint64>
    requires logQ <= MAX_LOG_Q
  {
    if n == 0 then []
    else
      var c := Candidate(logQ, logN, n - 1);
      PrimesAmong(isPrime, logQ, logN, n - 1) + (if isPrime(c) then [c] else [])
  }

  /** The search returns right after testing value `n - 1`: it was prime and
      completed the list of `levels` primes. */
  ghost predicate StopsAt(isPrime: uint64 -> bool, logQ: nat, logN: nat, levels: nat, n: nat)
    requires logQ <= MAX_LOG_Q
  {
    n > 0 && isPrime(Candidate(logQ, logN, n - 1)) && |PrimesAmong(isPrime, logQ, logN, n)| == levels
  }

  /** The search does not stop within its first `n` tests. */
  ghost predicate NoStopWithin(isPrime: uint64 -> bool, logQ: nat, logN: nat, levels: nat, n: nat)
    requires logQ <= MAX_LOG_Q
  {
    n == 0 || (!StopsAt(isPrime, logQ, logN, levels, n) && NoStopWithin(isPrime, logQ, logN, levels, n - 1))
  }

  lemma {:induction false} NoStopWithinMeans(isPrime: uint64 -> bool, logQ: nat, logN: nat, levels: nat, n: nat)
    requires logQ <= MAX_LOG_Q
    ensures NoStopWithin(isPrime, logQ, logN, levels, n) <==>
      forall m :: 0 < m <= n ==> !StopsAt(isPrime, logQ, logN, levels, m)
  {
    if n > 0 {
      NoStopWithinMeans(isPrime, logQ, logN, levels, n - 1);
    }
  }

  /** The search stops after testing `n` values, and not earlier. */
  ghost predicate FirstStop(isPrime: uint64 -> bool, logQ: nat, logN: nat, levels: nat, n: nat)
    requires logQ <= MAX_LOG_Q
  {
    n > 0 && StopsAt(isPrime, logQ, logN, levels, n) && NoStopWithin(isPrime, logQ, logN, levels, n - 1)
  }

  /** What the search returns when it stops: `levels` primes. */
  lemma StopResult(isPrime: uint64 -> bool, logQ: nat, logN: nat, levels: nat, n: nat)
    requires logQ <= MAX_LOG_Q
    requires StopsAt(isPrime, logQ, logN, levels, n)
    ensures |PrimesAmong(isPrime, logQ, logN, n)| == levels >= 1
    ensures forall k :: 0 <= k < levels ==> isPrime(PrimesAmong(isPrime, logQ, logN, n)[k])
  {
    PrimesArePrime(isPrime, logQ, logN, n);
    NoStopForZeroLevels(isPrime, logQ, logN, n);
  }

  /** `generateNTTPrimes`, with at most `fuel` rounds of the loop. On success
      `steps` is the number of values tested. */
  method GenerateNTTPrimes(isPrime: uint64 -> bool, logQ: uint64, logN: uint64, levels: uint64, fuel: nat)
    returns (r: Result<seq<uint64>, SearchError>, steps: nat)
    ensures logQ > MAX_LOG_Q <==> r == Err(LogQTooLarge)
    ensures r.Ok? ==>
      && logQ <= MAX_LOG_Q
      && 0 < steps <= 2 * fuel
      && FirstStop(isPrime, logQ, logN, levels, steps)
      && r.value == PrimesAmong(isPrime, logQ, logN, steps)
    ensures r == Err(OutOfFuel) ==>
      logQ <= MAX_LOG_Q && NoStopWithin(isPrime, logQ, logN, levels, 2 * fuel)
  {
    if logQ > MAX_LOG_Q {
      return Err(LogQTooLarge), 0;
    }
    var x := Start(logQ);
    var y := Start(logQ);
    var primes: seq<uint64> := [];
    var round := 0;
    while round < fuel
      invariant round <= fuel
      invariant y == Candidate(logQ, logN, 2 * round)
      invariant x == Candidate(logQ, logN, 2 * round + 1)
      invariant primes == PrimesAmong(isPrime, logQ, logN, 2 * round)
      invariant NoStopWithin(isPrime, logQ, logN, levels, 2 * round)
    {
      CandidateStep(logQ, logN, round);
      x, y, primes, steps := SearchRound(isPrime, logQ, logN, levels, round, x, y, primes);
      if steps != 0 {
        return Ok(primes), steps;
      }
      round := round + 1;
    }
    return Err(OutOfFuel), 2 * round;
  }

  /** One round of the loop: test `y`, step it down, test `x`, step it up.
      `steps` is 0 when the search goes on, and otherwise the number of
      values tested when it returned. */
  method SearchRound(isPrime: uint64 -> bool, logQ: nat, logN: nat, levels: nat, round: nat,
                     x: uint64, y: uint64, primes: seq<uint64>)
    returns (x': uint64, y': uint64, primes': seq<uint64>, steps: nat)
    requires logQ <= MAX_LOG_Q
    requires y == Candidate(logQ, logN, 2 * round)
    requires x == Candidate(logQ, logN, 2 * round + 1)
    requires primes == PrimesAmong(isPrime, logQ, logN, 2 * round)
    requires NoStopWithin(isPrime, logQ, logN, levels, 2 * round)
    ensures steps == 0 || steps == 2 * round + 1 || steps == 2 * round + 2
    ensures steps == 0 ==>
      && y' == WrapSub(y, TwoN(logN))
      && x' == WrapAdd(x, TwoN(logN))
      && primes' == PrimesAmong(isPrime, logQ, logN, 2 * round + 2)
      && NoStopWithin(isPrime, logQ, logN, levels, 2 * round + 2)
    ensures steps != 0 ==>
      FirstStop(isPrime, logQ, logN, levels, steps) && primes' == PrimesAmong(isPrime, logQ, logN, steps)
  {
    var stop;
    x', y' := x, y;
    primes', stop := TestValue(isPrime, logQ, logN, levels, 2 * round, y, primes);
    if stop {
      return x', y', primes', 2 * round + 1;
    }
    y' := WrapSub(y, TwoN(logN));
    primes', stop := TestValue(isPrime, logQ, logN, levels, 2 * round + 1, x, primes');
    if stop {
      return x', y', primes', 2 * round + 2;
    }
    x' := WrapAdd(x, TwoN(logN));
    steps := 0;
  }

  /** Testing value `n`, which is `c`: a prime is appended, and the search
      returns when that completes the list of `levels` primes. */
  method TestValue(isPrime: uint64 -> bool, logQ: nat, logN: nat, levels: nat, n: nat, c: uint64, primes: seq<uint64>)
    returns (primes': seq<uint64>, stop: bool)
    requires logQ <= MAX_LOG_Q
    requires Candidate(logQ, logN, n) == c
    requires primes == PrimesAmong(isPrime, logQ, logN, n)
    requires NoStopWithin(isPrime, logQ, logN, levels, n)
    ensures primes' == PrimesAmong(isPrime, logQ, logN, n + 1)
    ensures stop <==> FirstStop(isPrime, logQ, logN, levels, n + 1)
    ensures !stop ==> NoStopWithin(isPrime, logQ, logN, levels, n + 1)
  {
    primes' := primes;
    stop := false;
    if isPrime(c) {
      primes' := primes + [c];
      stop := |primes'| == levels;
    }
  }

  /** Round `j` tests `y` and then `x` of that round. */
  lemma {:induction false} CandidateOfRound(logQ: nat, logN: nat, j: nat)
    requires logQ <= MAX_LOG_Q
    ensures Candidate(logQ, logN, 2 * j) == Down(Start(logQ), TwoN(logN), j)
    ensures Candidate(logQ, logN, 2 * j + 1) == Up(Start(logQ), TwoN(logN), j)
  {
    Halves(j);
  }

  /** From one round to the next `y` steps down and `x` steps up. */
  lemma CandidateStep(logQ: nat, logN: nat, j: nat)
    requires logQ <= MAX_LOG_Q
    ensures Candidate(logQ, logN, 2 * j + 2) == WrapSub(Candidate(logQ, logN, 2 * j), TwoN(logN))
    ensures Candidate(logQ, logN, 2 * j + 3) == WrapAdd(Candidate(logQ, logN, 2 * j + 1), TwoN(logN))
  {
    CandidateOfRound(logQ, logN, j);
    CandidateOfRound(logQ, logN, j + 1);
  }

  lemma Halves(j: nat)
    ensures (2 * j) % 2 == 0 && (2 * j) / 2 == j
    ensures (2 * j + 1) % 2 == 1 && (2 * j + 1) / 2 == j
  {
  }

  lemma {:induction false} PrimesArePrime(isPrime: uint64 -> bool, logQ: nat, logN: nat, n: nat)
    requires logQ <= MAX_LOG_Q
    ensures forall k :: 0 <= k < |PrimesAmong(isPrime, logQ, logN, n)| ==> isPrime(PrimesAmong(isPrime, logQ, logN, n)[k])
  {
    if n > 0 {
      PrimesArePrime(isPrime, logQ, logN, n - 1);
    }
  }

  lemma {:induction false} PrimesAmongGrows(isPrime: uint64 -> bool, logQ: nat, logN: nat, n: nat, m: nat)
    requires logQ <= MAX_LOG_Q
    requires n <= m
    ensures |PrimesAmong(isPrime, logQ, logN, n)| <= |PrimesAmong(isPrime, logQ, logN, m)|
    ensures n < m && isPrime(Candidate(logQ, logN, m - 1)) ==>
      |PrimesAmong(isPrime, logQ, logN, n)| < |PrimesAmong(isPrime, logQ, logN, m)|
    decreases m - n
  {
    if n < m {
      PrimesAmongGrows(isPrime, logQ, logN, n, m - 1);
    }
  }

  /** The stopping point is determined: two runs of the search with enough
      fuel return the same primes. */
  lemma StopPointUnique(isPrime: uint64 -> bool, logQ: nat, logN: nat, levels: nat, n: nat, m: nat)
    requires logQ <= MAX_LOG_Q
    requires StopsAt(isPrime, logQ, logN, levels, n)
    requires StopsAt(isPrime, logQ, logN, levels, m)
    ensures n == m
    ensures FirstStop(isPrime, logQ, logN, levels, n)
  {
    if n < m {
      PrimesAmongGrows(isPrime, logQ, logN, n, m);
    } else if m < n {
      PrimesAmongGrows(isPrime, logQ, logN, m, n);
    }
    forall k | 0 < k < n
      ensures !StopsAt(isPrime, logQ, logN, levels, k)
    {
      if StopsAt(isPrime, logQ, logN, levels, k) {
        PrimesAmongGrows(isPrime, logQ, logN, k, n);
      }
    }
    NoStopWithinMeans(isPrime, logQ, logN, levels, n - 1);
  }

  /** With `levels == 0` the search never stops: the length is compared only
      after a prime was appended. */
  lemma NoStopForZeroLevels(isPrime: uint64 -> bool, logQ: nat, logN: nat, n: nat)
    requires logQ <= MAX_LOG_Q
    ensures !StopsAt(isPrime, logQ, logN, 0, n)
  {
    if n > 0 && isPrime(Candidate(logQ, logN, n - 1)) {
      PrimesAmongGrows(isPrime, logQ, logN, n - 1, n);
    }
  }

  /** One step down keeps the remainder modulo a divisor of 2^64. */
  lemma WrapSubCongruent(d: uint64, step: uint64, k: int)
    requires step > 0 && k * step == WORD_MODULUS
    ensures WrapSub(d, step) % step == d % step
  {
    if d >= step {
      MultipleMod(d, -1, step);
    } else {
      assert d + WORD_MODULUS - step == d + (k - 1) * step;
      MultipleMod(d, k - 1, step);
    }
  }

  /** One step up keeps the remainder modulo a divisor of 2^64. */
  lemma WrapAddCongruent(u: uint64, step: uint64, k: int)
    requires step > 0 && k * step == WORD_MODULUS
    ensures WrapAdd(u, step) % step == u % step
  {
    if u + step < WORD_MODULUS {
      MultipleMod(u, 1, step);
    } else {
      assert u + step - WORD_MODULUS == u + (1 - k) * step;
      MultipleMod(u, 1 - k, step);
    }
  }

  lemma {:induction false} DownCongruent(start: uint64, step: uint64, k: int, j: nat)
    requires step > 0 && k * step == WORD_MODULUS
    ensures Down(start, step, j) % step == start % step
  {
    if j > 0 {
      DownCongruent(start, step, k, j - 1);
      WrapSubCongruent(Down(start, step, j - 1), step, k);
    }
  }

  lemma {:induction false} UpCongruent(start: uint64, step: uint64, k: int, j: nat)
    requires step > 0 && k * step == WORD_MODULUS
    ensures Up(start, step, j) % step == start % step
  {
    if j > 0 {
      UpCongruent(start, step, k, j - 1);
      WrapAddCongruent(Up(start, step, j - 1), step, k);
    }
  }

  /** 2N divides 2^64 while the shift keeps its bit. */
  lemma StepDividesWord(logN: nat) returns (k: int)
    requires logN <= 62
    ensures k * TwoN(logN) == WORD_MODULUS
  {
    k := Pow2(63 - logN);
    Pow2Add(63 - logN, logN + 1);
    assert (63 - logN) + (logN + 1) == 64;
    Pow2Of64();
  }

  /** 2^logQ + 1 is 1 modulo 2N when 2N divides 2^logQ. */
  lemma {:induction false} StartIsOneModStep(logQ: nat, logN: nat)
    requires logQ <= MAX_LOG_Q
    requires logN + 1 <= logQ
    ensures Start(logQ) % TwoN(logN) == 1
  {
    var m := StepDividesStart(logQ, logN);
    ModUnique(Start(logQ), m, 1, TwoN(logN));
  }

  /** 2N divides 2^logQ when logN + 1 <= logQ, and 2N is at least 2. */
  lemma StepDividesStart(logQ: nat, logN: nat) returns (m: int)
    requires logQ <= MAX_LOG_Q
    requires logN + 1 <= logQ
    ensures TwoN(logN) >= 2 && Start(logQ) == m * TwoN(logN) + 1
  {
    var step := Pow2(logN + 1);
    m := Pow2(logQ - (logN + 1));
    Pow2Add(logN + 1, logQ - (logN + 1));
    Pow2Monotone(1, logN + 1);
    assert Start(logQ) == step * m + 1;
    assert TwoN(logN) == step;
  }

  /** Every value tested is congruent to 2^logQ + 1 modulo 2N, wrap-around
      included; when 2N divides 2^logQ every one is 1 modulo 2N. */
  lemma CandidateCongruent(logQ: nat, logN: nat, i: nat)
    requires logQ <= MAX_LOG_Q
    requires logN <= 62
    ensures Candidate(logQ, logN, i) % TwoN(logN) == Start(logQ) % TwoN(logN)
    ensures logN + 1 <= logQ ==> Candidate(logQ, logN, i) % TwoN(logN) == 1
  {
    var k := StepDividesWord(logN);
    if i % 2 == 0 {
      DownCongruent(Start(logQ), TwoN(logN), k, i / 2);
    } else {
      UpCongruent(Start(logQ), TwoN(logN), k, i / 2);
    }
    if logN + 1 <= logQ {
      StartIsOneModStep(logQ, logN);
    }
  }

  /** Every prime found is NTT-friendly (1 modulo 2N) when 2N divides
      2^logQ. */
  lemma {:induction false} PrimesAreNTTFriendly(isPrime: uint64 -> bool, logQ: nat, logN: nat, n: nat)
    requires logQ <= MAX_LOG_Q
    requires logN + 1 <= logQ
    ensures forall k :: 0 <= k < |PrimesAmong(isPrime, logQ, logN, n)| ==>
      PrimesAmong(isPrime, logQ, logN, n)[k] % TwoN(logN) == 1
  {
    forall k | 0 <= k < |PrimesAmong(isPrime, logQ, logN, n)|
      ensures PrimesAmong(isPrime, logQ, logN, n)[k] % TwoN(logN) == 1
    {
      var i := PrimeIsCandidate(isPrime, logQ, logN, n, k);
      CandidateCongruent(logQ, logN, i);
    }
  }

  /** Each prime found is one of the values tested. */
  lemma {:induction false} PrimeIsCandidate(isPrime: uint64 -> bool, logQ: nat, logN: nat, n: nat, k: nat)
    returns (i: nat)
    requires logQ <= MAX_LOG_Q
    requires k < |PrimesAmong(isPrime, logQ, logN, n)|
    ensures i < n && PrimesAmong(isPrime, logQ, logN, n)[k] == Candidate(logQ, logN, i)
  {
    var prev := PrimesAmong(isPrime, logQ, logN, n - 1);
    if k < |prev| {
      i := PrimeIsCandidate(isPrime, logQ, logN, n - 1, k);
    } else {
      i := n - 1;
    }
  }

  /** No value wraps around within the first `n` tests. */
  ghost predicate NoWrap(logQ: nat, logN: nat, n: nat)
    requires logQ <= MAX_LOG_Q
  {
    logN <= 62 && n * TwoN(logN) <= 2 * QPow2(logQ)
  }

  lemma {:induction false} DownClosedForm(start: uint64, step: uint64, j: nat)
    requires j * step <= start
    ensures Down(start, step, j) == start - j * step
  {
    if j > 0 {
      assert (j - 1) * step == j * step - step;
      DownClosedForm(start, step, j - 1);
    }
  }

  lemma {:induction false} UpClosedForm(start: uint64, step: uint64, j: nat)
    requires start + j * step < WORD_MODULUS
    ensures Up(start, step, j) == start + j * step
  {
    if j > 0 {
      assert (j - 1) * step == j * step - step;
      UpClosedForm(start, step, j - 1);
    }
  }

  /** Without wrap-around, value `i` of the walk is 2^logQ + 1 - (i/2)·2N for
      even `i` and 2^logQ + 1 + (i/2)·2N for odd `i`. */
  lemma CandidateClosedForm(logQ: nat, logN: nat, n: nat, i: nat)
    requires logQ <= MAX_LOG_Q
    requires NoWrap(logQ, logN, n)
    requires i < n
    ensures Candidate(logQ, logN, i) ==
      if i % 2 == 0 then Start(logQ) - (i / 2) * TwoN(logN) else Start(logQ) + (i / 2) * TwoN(logN)
  {
    var j := i / 2;
    assert 2 * j + 1 <= n;
    HalfWalkBound(logQ, logN, n, j);
    if i % 2 == 0 {
      DownClosedForm(Start(logQ), TwoN(logN), j);
    } else {
      UpClosedForm(Start(logQ), TwoN(logN), j);
    }
  }

  /** Within the no-wrap range `j` steps stay between 1 and 2^64 around
      2^logQ + 1. */
  lemma HalfWalkBound(logQ: nat, logN: nat, n: nat, j: nat)
    requires logQ <= MAX_LOG_Q
    requires NoWrap(logQ, logN, n)
    requires 2 * j + 1 <= n
    ensures j * TwoN(logN) <= Start(logQ)
    ensures Start(logQ) + j * TwoN(logN) < WORD_MODULUS
  {
    var step := TwoN(logN);
    DoubleMul(j, step);
    MulMonotone(2 * j, n, step);
    var a, b := j * step, n * step;
    assert 2 * a <= b <= 2 * QPow2(logQ);
  }

  lemma DoubleMul(j: nat, step: nat)
    ensures 2 * (j * step) == (2 * j) * step
  {
  }

  lemma MulCancel(a: nat, b: nat, m: nat)
    requires m > 0 && a * m == b * m
    ensures a == b
  {
    if a < b {
      MulAtLeast(b - a, m);
    } else if b < a {
      MulAtLeast(a - b, m);
    }
  }


  /** Within the no-wrap range the only two tests of the same value are the
      first two: 2^logQ + 1 is tested as `y` and again as `x`. */
  lemma {:induction false} CandidatesDistinct(logQ: nat, logN: nat, n: nat, i: nat, k: nat)
    requires logQ <= MAX_LOG_Q
    requires NoWrap(logQ, logN, n)
    requires i < k < n
    ensures Candidate(logQ, logN, i) == Candidate(logQ, logN, k) <==> i == 0 && k == 1
  {
    var step := TwoN(logN);
    Pow2Monotone(1, logN + 1);
    assert Pow2(1) == 2;
    CandidateClosedForm(logQ, logN, n, i);
    CandidateClosedForm(logQ, logN, n, k);
    var a, b := i / 2, k / 2;
    if Candidate(logQ, logN, i) == Candidate(logQ, logN, k) {
      if i % 2 == k % 2 {
        MulCancel(a, b, step);
        assert false;
      } else {
        assert a * step + b * step == 0;
        if a > 0 {
          MulAtLeast(a, step);
        }
        if b > 0 {
          MulAtLeast(b, step);
        }
      }
    }
  }

  /** No value occurs twice in `s`. */
  ghost predicate Distinct(s: seq<uint64>)
  {
    forall a, b :: 0 <= a < b < |s| ==> s[a] != s[b]
  }

  /** The first round tests 2^logQ + 1 twice. */
  lemma FirstRound(isPrime: uint64 -> bool, logQ: nat, logN: nat)
    requires logQ <= MAX_LOG_Q
    ensures PrimesAmong(isPrime, logQ, logN, 2) ==
      if isPrime(Start(logQ)) then [Start(logQ), Start(logQ)] else []
  {
    var c0, c1 := Candidate(logQ, logN, 0), Candidate(logQ, logN, 1);
    assert c0 == Start(logQ) && c1 == Start(logQ);
    assert PrimesAmong(isPrime, logQ, logN, 1) == (if isPrime(c0) then [c0] else []);
    assert PrimesAmong(isPrime, logQ, logN, 2) ==
      PrimesAmong(isPrime, logQ, logN, 1) + (if isPrime(c1) then [c1] else []);
  }

  /** Past the first round, a value found prime was not found before. */
  lemma {:induction false} NewPrimeIsNew(isPrime: uint64 -> bool, logQ: nat, logN: nat, n: nat)
    requires logQ <= MAX_LOG_Q
    requires NoWrap(logQ, logN, n)
    requires n >= 3
    ensures Candidate(logQ, logN, n - 1) !in PrimesAmong(isPrime, logQ, logN, n - 1)
  {
    var prev := PrimesAmong(isPrime, logQ, logN, n - 1);
    forall a | 0 <= a < |prev|
      ensures prev[a] != Candidate(logQ, logN, n - 1)
    {
      var i := PrimeIsCandidate(isPrime, logQ, logN, n - 1, a);
      CandidatesDistinct(logQ, logN, n, i, n - 1);
    }
  }

  /** Appending a value not yet present keeps distinctness, both ways. */
  lemma DistinctAppend(s: seq<uint64>, c: uint64)
    requires c !in s
    ensures Distinct(s + [c]) <==> Distinct(s)
  {
    if Distinct(s) {
      forall a, b | 0 <= a < b < |s + [c]|
        ensures (s + [c])[a] != (s + [c])[b]
      {
        if b < |s| {
          assert s[a] != s[b];
        }
      }
    }
    if Distinct(s + [c]) {
      forall a, b | 0 <= a < b < |s|
        ensures s[a] != s[b]
      {
        assert (s + [c])[a] != (s + [c])[b];
      }
    }
  }

  /** The doc claim "all primes are different" holds for the search exactly
      when 2^logQ + 1 is not prime: otherwise it is collected twice, once as
      `y` and once as `x`, as soon as two values have been tested. */
  lemma {:induction false} DistinctUnlessStartPrime(isPrime: uint64 -> bool, logQ: nat, logN: nat, n: nat)
    requires logQ <= MAX_LOG_Q
    requires NoWrap(logQ, logN, n)
    ensures Distinct(PrimesAmong(isPrime, logQ, logN, n)) <==> !(n >= 2 && isPrime(Start(logQ)))
  {
    if n <= 1 {
    } else if n == 2 {
      FirstRound(isPrime, logQ, logN);
      var ps := PrimesAmong(isPrime, logQ, logN, 2);
      if isPrime(Start(logQ)) {
        assert ps[0] == ps[1];
      }
    } else {
      assert NoWrap(logQ, logN, n - 1) by {
        MulMonotone(n - 1, n, TwoN(logN));
      }
      DistinctUnlessStartPrime(isPrime, logQ, logN, n - 1);
      var prev := PrimesAmong(isPrime, logQ, logN, n - 1);
      var c := Candidate(logQ, logN, n - 1);
      if isPrime(c) {
        assert PrimesAmong(isPrime, logQ, logN, n) == prev + [c];
        NewPrimeIsNew(isPrime, logQ, logN, n);
        DistinctAppend(prev, c);
      } else {
        assert PrimesAmong(isPrime, logQ, logN, n) == prev;
      }
    }
  }

  /** Concrete instance: 65537 = 2^16 + 1 is prime, so asking for two primes
      of 16 bits returns 65537 twice, whatever the ring degree. */
  lemma FermatPrimeReturnedTwice(isPrime: uint64 -> bool, logN: nat)
    requires isPrime(65537)
    ensures Start(16) == 65537
    ensures StopsAt(isPrime, 16, logN, 2, 2)
    ensures PrimesAmong(isPrime, 16, logN, 2) == [65537, 65537]
  {
    assert Pow2(2) == 4;
    Pow2Add(2, 2);
    Pow2Add(4, 4);
    Pow2Add(8, 8);
    assert Start(16) == 65537;
    FirstRound(isPrime, 16, logN);
  }

  /** Whether the corrected search tests value `i`: `x` is skipped when it
      equals the `y` tested just before it, which within the no-wrap range
      happens only in the first round. */
  predicate TestedOnce(logQ: nat, logN: nat, i: nat)
    requires logQ <= MAX_LOG_Q
  {
    i % 2 == 0 || Candidate(logQ, logN, i) != Candidate(logQ, logN, i - 1)
  }

  /** The primes the corrected search collects among its first `n` values. */
  function PrimesAmongOnce(isPrime: uint64 -> bool, logQ: nat, logN: nat, n: nat): seq<uint64>
    requires logQ <= MAX_LOG_Q
  {
    if n == 0 then []
    else
      var c := Candidate(logQ, logN, n - 1);
      PrimesAmongOnce(isPrime, logQ, logN, n - 1) + (if TestedOnce(logQ, logN, n - 1) && isPrime(c) then [c] else [])
  }

  /** Each prime the corrected search collects is one of the values tested. */
  lemma {:induction false} OnceIsCandidate(isPrime: uint64 -> bool, logQ: nat, logN: nat, n: nat, k: nat)
    returns (i: nat)
    requires logQ <= MAX_LOG_Q
    requires k < |PrimesAmongOnce(isPrime, logQ, logN, n)|
    ensures i < n && PrimesAmongOnce(isPrime, logQ, logN, n)[k] == Candidate(logQ, logN, i)
    ensures TestedOnce(logQ, logN, i)
  {
    var prev := PrimesAmongOnce(isPrime, logQ, logN, n - 1);
    if k < |prev| {
      i := OnceIsCandidate(isPrime, logQ, logN, n - 1, k);
    } else {
      i := n - 1;
    }
  }

  /** The corrected search keeps the promise "all primes are different". */
  lemma {:induction false} PrimesAmongOnceDistinct(isPrime: uint64 -> bool, logQ: nat, logN: nat, n: nat)
    requires logQ <= MAX_LOG_Q
    requires NoWrap(logQ, logN, n)
    ensures Distinct(PrimesAmongOnce(isPrime, logQ, logN, n))
  {
    if n > 0 {
      assert NoWrap(logQ, logN, n - 1) by {
        MulMonotone(n - 1, n, TwoN(logN));
      }
      PrimesAmongOnceDistinct(isPrime, logQ, logN, n - 1);
      var prev := PrimesAmongOnce(isPrime, logQ, logN, n - 1);
      var c := Candidate(logQ, logN, n - 1);
      if TestedOnce(logQ, logN, n - 1) && isPrime(c) {
        forall a | 0 <= a < |prev|
          ensures prev[a] != c
        {
          var i := OnceIsCandidate(isPrime, logQ, logN, n - 1, a);
          CandidatesDistinct(logQ, logN, n, i, n - 1);
        }
        DistinctAppend(prev, c);
      }
    }
  }

  /** The correction removes exactly the second copy of 2^logQ + 1 and
      changes nothing else. */
  lemma {:induction false} OnceDropsDuplicate(isPrime: uint64 -> bool, logQ: nat, logN: nat, n: nat)
    requires logQ <= MAX_LOG_Q
    requires NoWrap(logQ, logN, n)
    requires n >= 2
    ensures PrimesAmong(isPrime, logQ, logN, n) ==
      (if isPrime(Start(logQ)) then [Start(logQ)] else []) + PrimesAmongOnce(isPrime, logQ, logN, n)
  {
    var s := Start(logQ);
    if n == 2 {
      FirstRound(isPrime, logQ, logN);
      assert Candidate(logQ, logN, 0) == s && Candidate(logQ, logN, 1) == s;
      assert PrimesAmongOnce(isPrime, logQ, logN, 1) == (if isPrime(s) then [s] else []);
      assert PrimesAmongOnce(isPrime, logQ, logN, 2) == PrimesAmongOnce(isPrime, logQ, logN, 1);
    } else {
      assert NoWrap(logQ, logN, n - 1) by {
        MulMonotone(n - 1, n, TwoN(logN));
      }
      OnceDropsDuplicate(isPrime, logQ, logN, n - 1);
      assert TestedOnce(logQ, logN, n - 1) by {
        CandidatesDistinct(logQ, logN, n, n - 2, n - 1);
      }
    }
  }
}
