/** `size`, `empty` and `full` of the ring, which load the two indices one after the other.

    A run is the sequence of shared states; a query loads `head` at one moment of it and
    `tail` at another, in either order, while other threads go on. */
module SpscQueries {
  import opened Basics
  import opened SpscQueue

  predicate ByProducer<T>(e: Event<T>) {
    e.BeginPush? || e.LoadTail? || e.PushFull? || e.StoreSlot? || e.PublishHead?
  }

  ghost predicate ProducerStep<T(!new)>(s: State<T>, s': State<T>) {
    exists e :: ByProducer(e) && Next(s, e, s')
  }

  ghost predicate ConsumerStep<T(!new)>(s: State<T>, s': State<T>) {
    exists e :: !ByProducer(e) && Next(s, e, s')
  }

  ghost predicate StepAt<T(!new)>(run: seq<State<T>>, i: nat)
    requires i + 1 < |run|
  {
    ProducerStep(run[i], run[i + 1]) || ConsumerStep(run[i], run[i + 1])
  }

  ghost predicate IsRun<T(!new)>(run: seq<State<T>>) {
    run != [] && Init(run[0]) && forall i :: 0 <= i < |run| - 1 ==> StepAt(run, i)
  }

  /** Only the consumer takes steps from moment `i` to moment `j`, as while the producer is
      inside a query. */
  ghost predicate ProducerPauses<T(!new)>(run: seq<State<T>>, i: nat, j: nat)
    requires i <= j < |run|
  {
    j == i || (ConsumerStep(run[j - 1], run[j]) && ProducerPauses(run, i, j - 1))
  }

  ghost predicate ConsumerPauses<T(!new)>(run: seq<State<T>>, i: nat, j: nat)
    requires i <= j < |run|
  {
    j == i || (ProducerStep(run[j - 1], run[j]) && ConsumerPauses(run, i, j - 1))
  }

  lemma StepFacts<T(!new)>(s: State<T>, s': State<T>)
    ensures ProducerStep(s, s') ==> s'.n == s.n && s'.popped == s.popped
    ensures ConsumerStep(s, s') ==> s'.n == s.n && s'.pushed == s.pushed
  {
    if ProducerStep(s, s') {
      var e :| ByProducer(e) && Next(s, e, s');
    }
    if ConsumerStep(s, s') {
      var e :| !ByProducer(e) && Next(s, e, s');
    }
  }

  lemma ReachSnoc<T(!new)>(s: State<T>, s': State<T>, k: nat)
    requires ReachIn(s, k) && (ProducerStep(s, s') || ConsumerStep(s, s'))
    ensures ReachIn(s', k + 1)
  {
    hide Next;
    var e :| Next(s, e, s');
    assert ReachIn(s, k + 1 - 1);
  }

  lemma {:induction false} RunReaches<T(!new)>(run: seq<State<T>>, i: nat)
    requires IsRun(run) && i < |run|
    ensures ReachIn(run[i], i) && run[i].n == run[0].n
  {
    if i == 0 {
    } else {
      hide ReachIn, ProducerStep, ConsumerStep, Init;
      RunReaches(run, i - 1);
      assert StepAt(run, i - 1);
      StepFacts(run[i - 1], run[i]);
      ReachSnoc(run[i - 1], run[i], i - 1);
    }
  }

  lemma RunInv<T(!new)>(run: seq<State<T>>, i: nat)
    requires IsRun(run) && i < |run| && run[0].n > 0
    ensures run[i].n == run[0].n && Inv(run[i])
  {
    hide ReachIn, Inv, IsRun;
    RunReaches(run, i);
    ReachableInv(run[i], i);
  }

  // ---------------------------------------------------------------- what the two loads show

  lemma SameRemainder(x: int, y: int, n: nat)
    requires n > 0
    ensures x % n == y % n <==> (x - y) % n == 0
  {
    var p, q := x / n, y / n;
    assert x == p * n + x % n && y == q * n + y % n;
    if x % n == y % n {
      assert x - y == (p - q) * n;
      ModOf(x - y, p - q, 0, n);
    }
    if (x - y) % n == 0 {
      var d := (x - y) / n;
      assert x - y == d * n;
      assert x == (q + d) * n + y % n;
      ModOf(x, q + d, y % n, n);
    }
  }

  lemma RemainderOfDifference(a: nat, b: nat, n: nat)
    requires n > 0
    ensures (a % n - b % n) % n == (a - b) % n
  {
    var p, q := a / n, b / n;
    assert a == p * n + a % n && b == q * n + b % n;
    assert (a - b) - (a % n - b % n) == (p - q) * n;
    ModOf((a - b) - (a % n - b % n), p - q, 0, n);
    SameRemainder(a - b, a % n - b % n, n);
  }

  /** `size` is the number of pushes seen less the number of pops seen, modulo the capacity;
      `empty` and `full` are its two extremes. */
  lemma QueryObserves<T(!new)>(run: seq<State<T>>, atHead: nat, atTail: nat)
    requires IsRun(run) && atHead < |run| && atTail < |run|
    requires 0 < run[0].n < SIZE_MODULUS && PassesTest(run[0].n)
    ensures var n, h, t := run[0].n, run[atHead].head, run[atTail].tail;
            && Size(h, t, n) == (|run[atHead].pushed| - |run[atTail].popped|) % n
            && (Empty(h, t) <==> Size(h, t, n) == 0)
            && (Full(h, t, n) <==> Size(h, t, n) == n - 1)
  {
    hide IsRun, Size, Empty, Full, PassesTest;
    RunInv(run, atHead);
    RunInv(run, atTail);
    MaskFormulas(run[atHead].head, run[atTail].tail, run[0].n);
    RemainderOfDifference(|run[atHead].pushed|, |run[atTail].popped|, run[0].n);
  }

  /** Exactly when a query is right about moment `m`: the pushes and pops by which its two loads
      miss that moment cancel modulo the capacity. */
  lemma QueryExactIff<T(!new)>(run: seq<State<T>>, atHead: nat, atTail: nat, m: nat)
    requires IsRun(run) && atHead < |run| && atTail < |run| && m < |run|
    requires 0 < run[0].n < SIZE_MODULUS && PassesTest(run[0].n)
    ensures var missedPushes := |run[m].pushed| - |run[atHead].pushed|;
            var missedPops := |run[m].popped| - |run[atTail].popped|;
            Size(run[atHead].head, run[atTail].tail, run[0].n) == Held(run[m])
            <==> (missedPushes - missedPops) % run[0].n == 0
  {
    hide IsRun, Size, PassesTest;
    QueryObserves(run, atHead, atTail);
    RunInv(run, m);
    ModOf(Held(run[m]), 0, Held(run[m]), run[0].n);
    SameRemainder(Held(run[m]), |run[atHead].pushed| - |run[atTail].popped|, run[0].n);
  }

  // ---------------------------------------------------------------- the two owners of the ring

  lemma {:induction false} PausedProducer<T(!new)>(run: seq<State<T>>, i: nat, j: nat)
    requires i <= j < |run| && ProducerPauses(run, i, j)
    ensures run[j].pushed == run[i].pushed
    decreases j
  {
    if i == j {
    } else {
      PausedProducer(run, i, j - 1);
      StepFacts(run[j - 1], run[j]);
    }
  }

  lemma {:induction false} PausedConsumer<T(!new)>(run: seq<State<T>>, i: nat, j: nat)
    requires i <= j < |run| && ConsumerPauses(run, i, j)
    ensures run[j].popped == run[i].popped
    decreases j
  {
    if i == j {
    } else {
      PausedConsumer(run, i, j - 1);
      StepFacts(run[j - 1], run[j]);
    }
  }

  ghost predicate RightAt<T>(h: nat, t: nat, s: State<T>) {
    && Size(h, t, s.n) == Held(s)
    && (Empty(h, t) <==> Held(s) == 0)
    && (Full(h, t, s.n) <==> Held(s) == s.n - 1)
  }

  lemma RightWhenExact<T(!new)>(run: seq<State<T>>, atHead: nat, atTail: nat, m: nat)
    requires IsRun(run) && atHead < |run| && atTail < |run| && m < |run|
    requires 0 < run[0].n < SIZE_MODULUS && PassesTest(run[0].n)
    requires |run[m].pushed| == |run[atHead].pushed| && |run[m].popped| == |run[atTail].popped|
    ensures RightAt(run[atHead].head, run[atTail].tail, run[m])
  {
    hide IsRun, Size, Empty, Full, PassesTest;
    QueryObserves(run, atHead, atTail);
    QueryExactIff(run, atHead, atTail, m);
    RunInv(run, m);
    ModOf(0, 0, 0, run[0].n);
  }

  /** Called by the producer, a query is right at the moment it loads the consumer's index, in
      whichever order it loads. */
  lemma ProducerQuery<T(!new)>(run: seq<State<T>>, i: nat, j: nat)
    requires IsRun(run) && i <= j < |run| && ProducerPauses(run, i, j)
    requires 0 < run[0].n < SIZE_MODULUS && PassesTest(run[0].n)
    ensures RightAt(run[i].head, run[j].tail, run[j]) && RightAt(run[j].head, run[i].tail, run[i])
  {
    hide IsRun, RightAt, PassesTest, ProducerPauses;
    PausedProducer(run, i, j);
    RightWhenExact(run, i, j, j);
    RightWhenExact(run, j, i, i);
  }

  /** Called by the consumer, it is right at the moment it loads the producer's index. */
  lemma ConsumerQuery<T(!new)>(run: seq<State<T>>, i: nat, j: nat)
    requires IsRun(run) && i <= j < |run| && ConsumerPauses(run, i, j)
    requires 0 < run[0].n < SIZE_MODULUS && PassesTest(run[0].n)
    ensures RightAt(run[i].head, run[j].tail, run[i]) && RightAt(run[j].head, run[i].tail, run[j])
  {
    hide IsRun, RightAt, PassesTest, ConsumerPauses;
    PausedConsumer(run, i, j);
    RightWhenExact(run, i, j, i);
    RightWhenExact(run, j, i, j);
  }

  // ---------------------------------------------------------------- anyone else

  /** A run whose ring never holds more than one value. */
  ghost predicate LightRun(run: seq<State<int>>) {
    IsRun(run) && forall m :: 0 <= m < |run| ==> Held(run[m]) <= 1
  }

  lemma Extend(run: seq<State<int>>, e: Event<int>, s: State<int>) returns (longer: seq<State<int>>)
    requires run != [] && LightRun(run) && Next(run[|run| - 1], e, s) && Held(s) <= 1
    ensures longer != [] && LightRun(longer) && longer[0] == run[0] && longer[|longer| - 1] == s
  {
    longer := run + [s];
    assert ProducerStep(run[|run| - 1], s) || ConsumerStep(run[|run| - 1], s);
    hide Next, ProducerStep, ConsumerStep;
    forall i | 0 <= i < |longer| - 1 ensures StepAt(longer, i) {
      if i < |run| - 1 {
        assert StepAt(run, i);
      }
    }
  }

  /** A ring of four at rest, empty, with both indices at `k`. */
  ghost predicate Settled(s: State<int>, k: nat) {
    && s.n == 4 && |s.buffer| == 4 && k < 4 && s.head == s.tail == k
    && s.producer == Idle && s.consumer == Waiting && |s.pushed| == |s.popped|
  }

  /** One value is pushed and popped. */
  lemma PassThrough(run: seq<State<int>>, k: nat) returns (longer: seq<State<int>>)
    requires run != [] && LightRun(run) && Settled(run[|run| - 1], k) && k < 3
    ensures longer != [] && LightRun(longer) && longer[0] == run[0] && Settled(longer[|longer| - 1], k + 1)
  {
    hide LightRun;
    var s := run[|run| - 1];
    var full := s.(buffer := s.buffer[k := 7], head := k + 1, pushed := s.pushed + [7]);
    longer := PushSeven(run, k);
    longer := Extend(longer, BeginPop, full.(consumer := Looking(k)));
    longer := Extend(longer, LoadHead, full.(consumer := Found(k)));
    longer := Extend(longer, LoadSlot, full.(consumer := Holding(k, 7)));
    longer := Extend(longer, PublishTail, full.(tail := k + 1, popped := s.popped + [7]));
  }

  lemma PushSeven(run: seq<State<int>>, k: nat) returns (longer: seq<State<int>>)
    requires run != [] && LightRun(run) && Settled(run[|run| - 1], k) && k < 3
    ensures longer != [] && LightRun(longer) && longer[0] == run[0]
    ensures var s := run[|run| - 1];
            longer[|longer| - 1] == s.(buffer := s.buffer[k := 7], head := k + 1, pushed := s.pushed + [7])
  {
    hide LightRun;
    var s := run[|run| - 1];
    longer := Extend(run, BeginPush(7), s.(producer := Started(7, k)));
    longer := Extend(longer, LoadTail, s.(producer := Ready(7, k)));
    longer := Extend(longer, StoreSlot, s.(buffer := s.buffer[k := 7], producer := Written(7, k)));
    longer := Extend(longer, PublishHead,
                     s.(buffer := s.buffer[k := 7], head := k + 1, pushed := s.pushed + [7]));
  }

  /** A third thread can see a size that the ring never had: it loads `head`, two values pass
      through a ring of four one at a time, and it loads `tail`. */
  lemma OutsideObserverMisled() returns (run: seq<State<int>>)
    ensures LightRun(run) && run[0].n == 4
    ensures Size(run[0].head, run[|run| - 1].tail, 4) == 2
  {
    var start := State(4, 0, 0, [0, 0, 0, 0], Idle, Waiting, [], []);
    run := [start];
    assert LightRun(run) && Settled(run[0], 0);
    hide LightRun, Size;
    run := PassThrough(run, 0);
    run := PassThrough(run, 1);
    SizeOfTwo();
  }

  lemma SizeOfTwo()
    ensures Size(0, 2, 4) == 2
  {
    hide Size;
    assert Pow2(2) == 4;
    SizeMask(0, 2, 4, 2);
  }
}
