/** The binary reduction tree of `evalPhase` in psi/main.go.

    The encrypted inputs form level 0. Level i+1 has half as many slots as
    level i (rounded down), and levels are added while that size is
    positive. Task j of level i multiplies slots 2j and 2j+1 of level i into
    slot j of level i+1; all tasks of a level finish before the next level
    starts; the result is slot 0 of the last level. The homomorphic
    multiplication followed by relinearisation is an abstract binary
    operation `op`, and a freshly allocated ciphertext is `blank`. */
module ReductionTree {
  import opened Results
  import opened Words

  /** `encLvls[len(encLvls)-1][0]` on an empty input list: the only level is
      empty and the index is out of range. */
  datatype TreeError = NoInputs

  /** `op` is associative. */
  ghost predicate Associative<T(!new)>(op: (T, T) -> T)
  {
    forall a, b, c :: op(op(a, b), c) == op(a, op(b, c))
  }

  /** `m, m/2, m/4, ...` while positive. */
  function Halvings(m: nat): (r: seq<nat>)
    ensures forall i :: 0 <= i < |r| ==> r[i] >= 1
    ensures |r| > 0 <==> m > 0
    ensures |r| > 0 ==> r[0] == m && r[|r| - 1] == 1
    ensures forall i :: 0 <= i < |r| - 1 ==> r[i + 1] == r[i] / 2
    decreases m
  {
    if m == 0 then [] else [m] + Halvings(m / 2)
  }

  /** The level sizes `evalPhase` allocates: the inputs, then halvings of
      their number while positive. */
  function LevelSizes(n: nat): (r: seq<nat>)
    ensures |r| >= 1 && r[0] == n
    ensures forall i :: 0 <= i < |r| - 1 ==> r[i + 1] == r[i] / 2
    ensures forall i :: 1 <= i < |r| ==> r[i] >= 1
    ensures n >= 1 ==> r[|r| - 1] == 1
  {
    [n] + Halvings(n / 2)
  }

  /** ⌊log2 n⌋. */
  function Log2(n: nat): nat
    requires n >= 1
  {
    if n == 1 then 0 else 1 + Log2(n / 2)
  }

  /** There are ⌊log2 n⌋ + 1 levels. */
  lemma {:induction false} LevelCount(n: nat)
    requires n >= 1
    ensures |LevelSizes(n)| == Log2(n) + 1
  {
    HalvingsCount(n / 2);
  }

  lemma {:induction false} HalvingsCount(m: nat)
    ensures m >= 1 ==> |Halvings(m)| == Log2(m) + 1
    ensures m == 0 ==> |Halvings(m)| == 0
    decreases m
  {
    if m >= 1 {
      HalvingsCount(m / 2);
    }
  }

  /** 2^⌊log2 n⌋ is the largest power of two not above n. */
  lemma {:induction false} Log2Bounds(n: nat)
    requires n >= 1
    ensures Pow2(Log2(n)) <= n < 2 * Pow2(Log2(n))
  {
    if n > 1 {
      Log2Bounds(n / 2);
    }
  }

  lemma {:induction false} Log2OfPow2(k: nat)
    ensures Log2(Pow2(k)) == k
  {
    if k > 0 {
      Log2OfPow2(k - 1);
      assert Pow2(k) / 2 == Pow2(k - 1);
    }
  }

  /** One multiplication task: slots `left` and `right` of level `level`
      into slot `out` of the next level. */
  datatype Task = Task(level: nat, left: nat, right: nat, out: nat)

  /** The tasks issued for level `level` when the next level has `count`
      slots. */
  function LevelTasks(level: nat, count: nat): (r: seq<Task>)
    ensures |r| == count
  {
    seq(count, j requires 0 <= j < count => Task(level, 2 * j, 2 * j + 1, j))
  }

  /** The whole schedule, one list of tasks per level barrier. */
  function Schedule(n: nat): (r: seq<seq<Task>>)
    ensures |r| == |LevelSizes(n)| - 1
    ensures n <= 1 ==> r == []
  {
    var sizes := LevelSizes(n);
    seq(|sizes| - 1, i requires 0 <= i < |sizes| - 1 => LevelTasks(i, sizes[i + 1]))
  }

  /** Every task of level `i` reads two slots that exist in level `i` and
      writes a slot that exists in level `i + 1`; each slot of level `i + 1`
      is written by exactly one task; and when level `i` has an odd number
      of slots its last one is read by no task. */
  lemma ScheduleShape(n: nat, i: nat)
    requires i < |Schedule(n)|
    ensures var sizes, tasks := LevelSizes(n), Schedule(n)[i];
      && |tasks| == sizes[i + 1]
      && (forall j :: 0 <= j < |tasks| ==>
            && tasks[j].level == i
            && tasks[j].left < tasks[j].right < sizes[i]
            && tasks[j].out == j < sizes[i + 1])
      && (sizes[i] % 2 == 1 ==>
            forall j :: 0 <= j < |tasks| ==> tasks[j].left != sizes[i] - 1 && tasks[j].right != sizes[i] - 1)
  {
    var sizes := LevelSizes(n);
    assert Schedule(n)[i] == LevelTasks(i, sizes[i + 1]);
    assert sizes[i + 1] == sizes[i] / 2;
  }

  /** All tasks of one level are issued before any task of a later level:
      the flattened issue order has non-decreasing levels. */
  function Flatten(schedule: seq<seq<Task>>): seq<Task>
  {
    if |schedule| == 0 then [] else schedule[0] + Flatten(schedule[1..])
  }

  /** Every task in `issued` belongs to level `from` or later, and levels
      never go down along `issued`. */
  ghost predicate IssuedInOrder(issued: seq<Task>, from: nat)
  {
    && (forall a :: 0 <= a < |issued| ==> from <= issued[a].level)
    && (forall a, b :: 0 <= a < b < |issued| ==> issued[a].level <= issued[b].level)
  }

  lemma {:induction false} ScheduleIssueOrder(n: nat, from: nat)
    requires from <= |Schedule(n)|
    ensures IssuedInOrder(Flatten(Schedule(n)[from..]), from)
    decreases |Schedule(n)| - from
  {
    var s := Schedule(n);
    if from < |s| {
      ScheduleIssueOrder(n, from + 1);
      assert s[from..][1..] == s[from + 1..];
      assert Flatten(s[from..]) == s[from] + Flatten(s[from + 1..]);
      assert s[from] == LevelTasks(from, LevelSizes(n)[from + 1]);
      LevelThenLater(s[from], Flatten(s[from + 1..]), from);
    }
  }

  /** One level's tasks followed by tasks of later levels, in order, are
      issued in order. */
  lemma LevelThenLater(head: seq<Task>, rest: seq<Task>, from: nat)
    requires forall a :: 0 <= a < |head| ==> head[a].level == from
    requires IssuedInOrder(rest, from + 1)
    ensures IssuedInOrder(head + rest, from)
  {
    var issued := head + rest;
    forall a | 0 <= a < |issued|
      ensures from <= issued[a].level
    {
      if a >= |head| {
        assert issued[a] == rest[a - |head|];
      }
    }
    forall a, b | 0 <= a < b < |issued|
      ensures issued[a].level <= issued[b].level
    {
      if a >= |head| {
        assert issued[a] == rest[a - |head|] && issued[b] == rest[b - |head|];
      } else if b >= |head| {
        assert issued[b] == rest[b - |head|];
      }
    }
  }

  /** Tasks reading `lvl` and writing into `next`, run in the given order. */
  function ApplyTasks<T>(op: (T, T) -> T, lvl: seq<T>, next: seq<T>, tasks: seq<Task>): (r: seq<T>)
    requires forall k :: 0 <= k < |tasks| ==> tasks[k].left < |lvl| && tasks[k].right < |lvl| && tasks[k].out < |next|
    ensures |r| == |next|
    decreases |tasks|
  {
    if |tasks| == 0 then next
    else
      var t := tasks[0];
      ApplyTasks(op, lvl, next[t.out := op(lvl[t.left], lvl[t.right])], tasks[1..])
  }

  /** With distinct output slots the order of the tasks does not matter:
      each written slot holds its task's product and the others keep their
      value. This is what makes running a level's tasks concurrently safe. */
  lemma {:induction false} ApplyTasksOrderFree<T>(op: (T, T) -> T, lvl: seq<T>, next: seq<T>, tasks: seq<Task>)
    requires forall k :: 0 <= k < |tasks| ==> tasks[k].left < |lvl| && tasks[k].right < |lvl| && tasks[k].out < |next|
    requires forall a, b :: 0 <= a < b < |tasks| ==> tasks[a].out != tasks[b].out
    ensures forall k :: 0 <= k < |tasks| ==>
      ApplyTasks(op, lvl, next, tasks)[tasks[k].out] == op(lvl[tasks[k].left], lvl[tasks[k].right])
    ensures forall s :: 0 <= s < |next| && (forall k :: 0 <= k < |tasks| ==> tasks[k].out != s) ==>
      ApplyTasks(op, lvl, next, tasks)[s] == next[s]
    decreases |tasks|
  {
    if |tasks| > 0 {
      var t := tasks[0];
      var next' := next[t.out := op(lvl[t.left], lvl[t.right])];
      ApplyTasksOrderFree(op, lvl, next', tasks[1..]);
      forall k | 0 < k < |tasks|
        ensures tasks[k] == tasks[1..][k - 1]
      {
      }
    }
  }

  /** The next level as a value: slot j is the product of slots 2j and
      2j+1. */
  function NextLevel<T>(op: (T, T) -> T, lvl: seq<T>): (r: seq<T>)
    ensures |r| == |lvl| / 2
  {
    seq(|lvl| / 2, j requires 0 <= j < |lvl| / 2 => op(lvl[2 * j], lvl[2 * j + 1]))
  }

  /** Running one level's tasks on freshly allocated slots yields the next
      level. */
  lemma {:induction false} LevelTasksComputeNextLevel<T>(op: (T, T) -> T, blank: T, lvl: seq<T>, level: nat)
    ensures var tasks := LevelTasks(level, |lvl| / 2);
      ApplyTasks(op, lvl, seq(|lvl| / 2, _ => blank), tasks) == NextLevel(op, lvl)
  {
    var tasks := LevelTasks(level, |lvl| / 2);
    var blanks := seq(|lvl| / 2, _ => blank);
    ApplyTasksOrderFree(op, lvl, blanks, tasks);
    forall j | 0 <= j < |lvl| / 2
      ensures ApplyTasks(op, lvl, blanks, tasks)[j] == NextLevel(op, lvl)[j]
    {
      assert tasks[j].out == j;
    }
  }

  /** The level loop of `evalPhase` over the precomputed sizes of the
      remaining levels. */
  function Run<T>(op: (T, T) -> T, blank: T, lvl: seq<T>, level: nat, sizes: seq<nat>): (r: seq<T>)
    requires sizes == Halvings(|lvl| / 2)
    ensures |lvl| >= 1 ==> |r| == 1
    decreases |sizes|
  {
    if |sizes| == 0 then lvl
    else
      var next := ApplyTasks(op, lvl, seq(sizes[0], _ => blank), LevelTasks(level, sizes[0]));
      Run(op, blank, next, level + 1, sizes[1..])
  }

  /** `evalPhase`, as written. */
  function EvalTree<T>(op: (T, T) -> T, blank: T, inputs: seq<T>): (r: Result<T, TreeError>)
    ensures r.Err? <==> |inputs| == 0
    ensures |inputs| == 1 ==> r == Ok(inputs[0])
  {
    if |inputs| == 0 then Err(NoInputs)
    else Ok(Run(op, blank, inputs, 0, LevelSizes(|inputs|)[1..])[0])
  }

  /** The tree as a value: combine neighbours until one is left. */
  function Reduce<T>(op: (T, T) -> T, lvl: seq<T>): T
    requires |lvl| >= 1
    decreases |lvl|
  {
    if |lvl| == 1 then lvl[0] else Reduce(op, NextLevel(op, lvl))
  }

  lemma {:induction false} RunIsReduce<T>(op: (T, T) -> T, blank: T, lvl: seq<T>, level: nat)
    requires |lvl| >= 1
    ensures Run(op, blank, lvl, level, Halvings(|lvl| / 2)) == [Reduce(op, lvl)]
    decreases |lvl|
  {
    if |lvl| > 1 {
      LevelTasksComputeNextLevel(op, blank, lvl, level);
      RunIsReduce(op, blank, NextLevel(op, lvl), level + 1);
    }
  }

  /** The product of a non-empty sequence, left to right. */
  function Prod<T>(op: (T, T) -> T, s: seq<T>): T
    requires |s| >= 1
    decreases |s|
  {
    if |s| == 1 then s[0] else op(Prod(op, s[..|s| - 1]), s[|s| - 1])
  }

  lemma {:induction false} ProdAppend<T(!new)>(op: (T, T) -> T, a: seq<T>, b: seq<T>)
    requires Associative(op)
    requires |a| >= 1 && |b| >= 1
    ensures Prod(op, a + b) == op(Prod(op, a), Prod(op, b))
    decreases |b|
  {
    var ab := a + b;
    if |b| == 1 {
      assert ab[..|ab| - 1] == a;
    } else {
      var b' := b[..|b| - 1];
      assert ab[..|ab| - 1] == a + b';
      ProdAppend(op, a, b');
    }
  }

  /** Slot j of `lvl` holds the product of the j-th block of `w` inputs. */
  ghost predicate Blocks<T>(op: (T, T) -> T, inputs: seq<T>, lvl: seq<T>, w: nat)
  {
    && w >= 1
    && |lvl| * w <= |inputs|
    && forall j :: 0 <= j < |lvl| ==> j * w + w <= |inputs| && lvl[j] == Prod(op, inputs[j * w..j * w + w])
  }

  lemma BlocksOfInputs<T>(op: (T, T) -> T, inputs: seq<T>)
    ensures Blocks(op, inputs, inputs, 1)
  {
    forall j | 0 <= j < |inputs|
      ensures inputs[j] == Prod(op, inputs[j..j + 1])
    {
    }
  }

  lemma MulStep(j: nat, w: nat, m: nat, n: nat)
    requires j < m && 2 * m <= n
    ensures (2 * j) * w == j * (2 * w) && (2 * j + 1) * w == j * (2 * w) + w
    ensures j * (2 * w) + 2 * w <= n * w
  {
    assert j * (2 * w) + 2 * w == (2 * j + 2) * w;
    MulMonotone(2 * j + 2, n, w);
  }

  /** Slot i of a level of blocks, with its start named. */
  lemma BlockAt<T>(op: (T, T) -> T, inputs: seq<T>, lvl: seq<T>, w: nat, i: nat, start: nat)
    requires Blocks(op, inputs, lvl, w)
    requires i < |lvl| && start == i * w
    ensures start + w <= |inputs| && lvl[i] == Prod(op, inputs[start..start + w])
  {
  }

  /** Slot j of the next level is the product of the j-th block of width
      2w. */
  lemma PairBlock<T(!new)>(op: (T, T) -> T, inputs: seq<T>, lvl: seq<T>, w: nat, m: nat, j: nat)
    requires Associative(op)
    requires Blocks(op, inputs, lvl, w)
    requires 2 * m <= |lvl| && j < m
    ensures j * (2 * w) + 2 * w <= |inputs|
    ensures op(lvl[2 * j], lvl[2 * j + 1]) == Prod(op, inputs[j * (2 * w)..j * (2 * w) + 2 * w])
  {
    MulStep(j, w, m, |lvl|);
    var s := j * (2 * w);
    BlockAt(op, inputs, lvl, w, 2 * j, s);
    BlockAt(op, inputs, lvl, w, 2 * j + 1, s + w);
    BlockPair(op, inputs, lvl[2 * j], lvl[2 * j + 1], s, w);
  }

  /** Two neighbouring blocks of width `w` starting at `s` make one block of
      width 2w. */
  lemma BlockPair<T(!new)>(op: (T, T) -> T, inputs: seq<T>, x: T, y: T, s: nat, w: nat)
    requires Associative(op)
    requires w >= 1 && s + 2 * w <= |inputs|
    requires x == Prod(op, inputs[s..s + w]) && y == Prod(op, inputs[s + w..s + 2 * w])
    ensures op(x, y) == Prod(op, inputs[s..s + 2 * w])
  {
    assert inputs[s..s + 2 * w] == inputs[s..s + w] + inputs[s + w..s + 2 * w];
    ProdAppend(op, inputs[s..s + w], inputs[s + w..s + 2 * w]);
  }

  /** Combining neighbouring blocks of width `w` gives blocks of width 2w. */
  lemma {:induction false} NextLevelBlocks<T(!new)>(op: (T, T) -> T, inputs: seq<T>, lvl: seq<T>, w: nat)
    requires Associative(op)
    requires Blocks(op, inputs, lvl, w)
    ensures Blocks(op, inputs, NextLevel(op, lvl), 2 * w)
  {
    var next := NextLevel(op, lvl);
    var m := |next|;
    assert 2 * m <= |lvl|;
    MulMonotone(2 * m, |lvl|, w);
    MulTwice(m, w);
    forall j | 0 <= j < m
      ensures j * (2 * w) + 2 * w <= |inputs|
      ensures next[j] == Prod(op, inputs[j * (2 * w)..j * (2 * w) + 2 * w])
    {
      PairBlock(op, inputs, lvl, w, m, j);
    }
  }

  /** A level of blocks of width `w` reduces to the product of its first
      2^⌊log2 |lvl|⌋ blocks. */
  lemma {:induction false} ReduceBlocks<T(!new)>(op: (T, T) -> T, inputs: seq<T>, lvl: seq<T>, w: nat)
    requires Associative(op)
    requires |lvl| >= 1
    requires Blocks(op, inputs, lvl, w)
    ensures w * Pow2(Log2(|lvl|)) <= |inputs|
    ensures Reduce(op, lvl) == Prod(op, inputs[..w * Pow2(Log2(|lvl|))])
    decreases |lvl|
  {
    if |lvl| == 1 {
      assert 0 * w == 0 && w * Pow2(Log2(|lvl|)) == w;
      assert lvl[0] == Prod(op, inputs[0..w]);
    } else {
      NextLevelBlocks(op, inputs, lvl, w);
      ReduceBlocks(op, inputs, NextLevel(op, lvl), 2 * w);
      Pow2Log2Step(|lvl|);
      MulTwice(w, Pow2(Log2(|lvl| / 2)));
    }
  }

  lemma Pow2Log2Step(n: nat)
    requires n >= 2
    ensures Pow2(Log2(n)) == 2 * Pow2(Log2(n / 2))
  {
  }

  lemma MulTwice(w: nat, p: nat)
    ensures w * (2 * p) == (2 * w) * p
  {
  }

  /** The tree combines exactly the first 2^⌊log2 n⌋ inputs, in order; the
      others are never read. */
  lemma {:induction false} TreeCombinesPrefix<T(!new)>(op: (T, T) -> T, blank: T, inputs: seq<T>)
    requires Associative(op)
    requires |inputs| >= 1
    ensures Pow2(Log2(|inputs|)) <= |inputs|
    ensures EvalTree(op, blank, inputs) == Ok(Prod(op, inputs[..Pow2(Log2(|inputs|))]))
  {
    BlocksOfInputs(op, inputs);
    ReduceBlocks(op, inputs, inputs, 1);
    RunIsReduce(op, blank, inputs, 0);
  }

  /** The prefix the tree combines, of length 2^Log2(n), is all n inputs
      exactly when n is a power of two. */
  lemma Log2ExactIffPowerOfTwo(n: nat)
    requires n >= 1
    ensures Pow2(Log2(n)) == n <==> exists k :: Pow2(k) == n
  {
    if exists k :: Pow2(k) == n {
      var k :| Pow2(k) == n;
      Log2OfPow2(k);
    }
  }

  // ---------------------------------------------------------------------
  // A tree that carries the odd slot up

  /** The next level when an odd last slot is carried up unchanged instead
      of being dropped. */
  function NextLevelCarry<T>(op: (T, T) -> T, lvl: seq<T>): (r: seq<T>)
    ensures |r| == (|lvl| + 1) / 2
  {
    NextLevel(op, lvl) + (if |lvl| % 2 == 1 then [lvl[|lvl| - 1]] else [])
  }

  function ReduceCarry<T>(op: (T, T) -> T, lvl: seq<T>): T
    requires |lvl| >= 1
    decreases |lvl|
  {
    if |lvl| == 1 then lvl[0] else ReduceCarry(op, NextLevelCarry(op, lvl))
  }

  /** The reduction with the odd slot carried up. */
  function EvalTreeCarry<T>(op: (T, T) -> T, inputs: seq<T>): (r: Result<T, TreeError>)
    ensures r.Err? <==> |inputs| == 0
  {
    if |inputs| == 0 then Err(NoInputs) else Ok(ReduceCarry(op, inputs))
  }

  /** The first `m` slots of the next level hold the product of the first
      `2m` slots of the level. */
  lemma {:induction false} PairsProd<T(!new)>(op: (T, T) -> T, lvl: seq<T>, m: nat)
    requires Associative(op)
    requires 1 <= m <= |lvl| / 2
    ensures Prod(op, NextLevel(op, lvl)[..m]) == Prod(op, lvl[..2 * m])
  {
    var next := NextLevel(op, lvl);
    if m == 1 {
      ProdPair(op, lvl[..2]);
    } else {
      PairsProd(op, lvl, m - 1);
      assert next[..m][..m - 1] == next[..m - 1];
      assert lvl[..2 * m] == lvl[..2 * m - 2] + [lvl[2 * m - 2], lvl[2 * m - 1]];
      ProdAppendPair(op, lvl[..2 * m - 2], lvl[2 * m - 2], lvl[2 * m - 1]);
    }
  }

  lemma ProdAppendPair<T(!new)>(op: (T, T) -> T, a: seq<T>, x: T, y: T)
    requires Associative(op)
    requires |a| >= 1
    ensures Prod(op, a + [x, y]) == op(Prod(op, a), op(x, y))
  {
    ProdPair(op, [x, y]);
    ProdAppend(op, a, [x, y]);
  }

  lemma ProdPair<T>(op: (T, T) -> T, pair: seq<T>)
    requires |pair| == 2
    ensures Prod(op, pair) == op(pair[0], pair[1])
  {
    assert pair[..1] == [pair[0]];
  }

  /** Carrying the odd slot keeps the product of the level. */
  lemma {:induction false} NextLevelCarryKeepsProd<T(!new)>(op: (T, T) -> T, lvl: seq<T>)
    requires Associative(op)
    requires |lvl| >= 2
    ensures Prod(op, NextLevelCarry(op, lvl)) == Prod(op, lvl)
  {
    var m := |lvl| / 2;
    PairsProdAll(op, lvl);
    if |lvl| % 2 == 1 {
      CarryOdd(op, lvl, m);
    } else {
      CarryEven(op, lvl);
    }
  }

  /** The next level holds the product of the paired prefix of the level. */
  lemma PairsProdAll<T(!new)>(op: (T, T) -> T, lvl: seq<T>)
    requires Associative(op)
    requires |lvl| >= 2
    ensures Prod(op, NextLevel(op, lvl)) == Prod(op, lvl[..2 * (|lvl| / 2)])
  {
    var next := NextLevel(op, lvl);
    PairsProd(op, lvl, |lvl| / 2);
    assert next[..|lvl| / 2] == next;
  }

  lemma {:induction false} CarryEven<T>(op: (T, T) -> T, lvl: seq<T>)
    requires |lvl| >= 2 && |lvl| % 2 == 0
    requires Prod(op, NextLevel(op, lvl)) == Prod(op, lvl[..2 * (|lvl| / 2)])
    ensures Prod(op, NextLevelCarry(op, lvl)) == Prod(op, lvl)
  {
    assert NextLevelCarry(op, lvl) == NextLevel(op, lvl);
    assert lvl[..2 * (|lvl| / 2)] == lvl;
  }

  lemma CarryOdd<T>(op: (T, T) -> T, lvl: seq<T>, m: nat)
    requires m >= 1 && |lvl| == 2 * m + 1
    requires Prod(op, NextLevel(op, lvl)) == Prod(op, lvl[..2 * m])
    ensures Prod(op, NextLevelCarry(op, lvl)) == Prod(op, lvl)
  {
    ProdSnoc(op, NextLevel(op, lvl), lvl);
  }

  /** Appending the last slot of `lvl` to a sequence with the product of
      all slots before it gives the product of `lvl`. */
  lemma ProdSnoc<T>(op: (T, T) -> T, init: seq<T>, lvl: seq<T>)
    requires |init| >= 1 && |lvl| >= 2
    requires Prod(op, init) == Prod(op, lvl[..|lvl| - 1])
    ensures Prod(op, init + [lvl[|lvl| - 1]]) == Prod(op, lvl)
  {
    var carried := init + [lvl[|lvl| - 1]];
    assert carried[..|carried| - 1] == init;
  }

  lemma {:induction false} ReduceCarryIsProd<T(!new)>(op: (T, T) -> T, lvl: seq<T>)
    requires Associative(op)
    requires |lvl| >= 1
    ensures ReduceCarry(op, lvl) == Prod(op, lvl)
    decreases |lvl|
  {
    if |lvl| > 1 {
      NextLevelCarryKeepsProd(op, lvl);
      ReduceCarryIsProd(op, NextLevelCarry(op, lvl));
    }
  }

  /** The carrying tree combines every input, whatever their number. */
  lemma {:induction false} TreeCarryCombinesAll<T(!new)>(op: (T, T) -> T, inputs: seq<T>)
    requires Associative(op)
    requires |inputs| >= 1
    ensures EvalTreeCarry(op, inputs) == Ok(Prod(op, inputs))
  {
    ReduceCarryIsProd(op, inputs);
  }
}
