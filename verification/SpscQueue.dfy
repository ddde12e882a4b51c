/** `SPSCQueue`: a ring of `n` slots shared by one producer and one consumer without a lock.

    `push`, `pop` and the queries are split into their atomic loads and stores, which may
    interleave in any way.  `pushed` and `popped` record the values of the calls that took
    effect. */
module SpscQueue {
  import opened Basics

  datatype Producer<T> =
    | Idle
    | Started(value: T, h: nat)   // own head loaded
    | Ready(value: T, h: nat)     // tail loaded, not full
    | Written(value: T, h: nat)   // slot stored, head not yet published

  datatype Consumer<T> =
    | Waiting
    | Looking(t: nat)             // own tail loaded
    | Found(t: nat)               // head loaded, not empty
    | Holding(t: nat, value: T)   // slot loaded, tail not yet published

  datatype State<T> = State(n: nat, head: nat, tail: nat, buffer: seq<T>,
                            producer: Producer<T>, consumer: Consumer<T>,
                            pushed: seq<T>, popped: seq<T>)

  datatype Event<T> =
    | BeginPush(value: T) | LoadTail | PushFull | StoreSlot | PublishHead
    | BeginPop | LoadHead | PopEmpty | LoadSlot | PublishTail

  ghost predicate Init<T>(s: State<T>) {
    && s.head == s.tail == 0 && |s.buffer| == s.n
    && s.producer == Idle && s.consumer == Waiting && s.pushed == s.popped == []
  }

  /** One atomic step.  A remainder by 0 is undefined, so a ring of 0 slots has no step there. */
  ghost predicate Next<T>(s: State<T>, e: Event<T>, s': State<T>) {
    match e
    case BeginPush(value) =>
      s.producer.Idle? && s' == s.(producer := Started(value, s.head))
    case LoadTail =>
      && s.producer.Started? && s.n > 0 && (s.producer.h + 1) % s.n != s.tail
      && s' == s.(producer := Ready(s.producer.value, s.producer.h))
    case PushFull =>
      && s.producer.Started? && s.n > 0 && (s.producer.h + 1) % s.n == s.tail
      && s' == s.(producer := Idle)
    case StoreSlot =>
      && s.producer.Ready? && s.producer.h < |s.buffer|
      && s' == s.(buffer := s.buffer[s.producer.h := s.producer.value],
                  producer := Written(s.producer.value, s.producer.h))
    case PublishHead =>
      && s.producer.Written? && s.n > 0
      && s' == s.(head := (s.producer.h + 1) % s.n, producer := Idle, pushed := s.pushed + [s.producer.value])
    case BeginPop =>
      s.consumer.Waiting? && s' == s.(consumer := Looking(s.tail))
    case LoadHead =>
      && s.consumer.Looking? && s.head != s.consumer.t
      && s' == s.(consumer := Found(s.consumer.t))
    case PopEmpty =>
      && s.consumer.Looking? && s.head == s.consumer.t
      && s' == s.(consumer := Waiting)
    case LoadSlot =>
      && s.consumer.Found? && s.consumer.t < |s.buffer|
      && s' == s.(consumer := Holding(s.consumer.t, s.buffer[s.consumer.t]))
    case PublishTail =>
      && s.consumer.Holding? && s.n > 0
      && s' == s.(tail := (s.consumer.t + 1) % s.n, consumer := Waiting, popped := s.popped + [s.consumer.value])
  }

  ghost predicate ReachIn<T(!new)>(s: State<T>, k: nat)
    decreases k
  {
    if k == 0 then Init(s) else exists p, e :: ReachIn(p, k - 1) && Next(p, e, s)
  }

  // ---------------------------------------------------------------- indices modulo n

  lemma {:induction false} MulAtLeast(d: nat, n: nat)
    requires d >= 1
    ensures d * n >= n
  {
    if d == 1 {
    } else {
      MulAtLeast(d - 1, n);
      assert d * n == (d - 1) * n + n;
    }
  }

  lemma MultipleIsFar(d: int, n: nat)
    requires n > 0 && d != 0
    ensures d * n >= n || d * n <= -(n as int)
  {
    if d >= 1 {
      MulAtLeast(d, n);
    } else {
      MulAtLeast(-d, n);
      assert (-d) * n == -(d * n);
    }
  }

  lemma ModOf(a: int, q: int, r: nat, n: nat)
    requires r < n && a == q * n + r
    ensures a % n == r
  {
    var d := q - a / n;
    assert d * n == a % n - r;
    if d != 0 {
      MultipleIsFar(d, n);
    }
  }

  lemma ModEqual(a: nat, b: nat, n: nat)
    requires n > 0 && b <= a < b + n
    ensures a % n == b % n <==> a == b
  {
    if a % n == b % n {
      var d := a / n - b / n;
      assert a - b == d * n;
      if d != 0 {
        MultipleIsFar(d, n);
      }
    }
  }

  lemma ModSucc(a: nat, n: nat)
    requires n > 0
    ensures (a % n + 1) % n == (a + 1) % n
  {
    var q, r := a / n, a % n;
    assert a == q * n + r;
    if r + 1 < n {
      ModOf(a + 1, q, r + 1, n);
      ModOf(r + 1, 0, r + 1, n);
    } else {
      assert a + 1 == (q + 1) * n;
      ModOf(a + 1, q + 1, 0, n);
      ModOf(r + 1, 1, 0, n);
    }
  }

  // ---------------------------------------------------------------- the invariant

  function Held<T>(s: State<T>): int {
    |s.pushed| - |s.popped|
  }

  ghost predicate Core<T>(s: State<T>) {
    && s.n > 0 && |s.buffer| == s.n
    && 0 <= Held(s) <= s.n - 1
    && s.head == |s.pushed| % s.n
    && s.tail == |s.popped| % s.n
    && s.popped == s.pushed[..|s.popped|]
    && forall i :: |s.popped| <= i < |s.pushed| ==> s.buffer[i % s.n] == s.pushed[i]
  }

  ghost predicate ProducerOk<T>(s: State<T>)
    requires Core(s)
  {
    match s.producer
    case Idle => true
    case Started(_, h) => h == s.head
    case Ready(_, h) => h == s.head && Held(s) < s.n - 1
    case Written(value, h) => h == s.head && Held(s) < s.n - 1 && s.buffer[h] == value
  }

  ghost predicate ConsumerOk<T>(s: State<T>)
    requires Core(s)
  {
    match s.consumer
    case Waiting => true
    case Looking(t) => t == s.tail
    case Found(t) => t == s.tail && Held(s) > 0
    case Holding(t, value) => t == s.tail && Held(s) > 0 && value == s.pushed[|s.popped|]
  }

  ghost predicate Inv<T>(s: State<T>) {
    Core(s) && ProducerOk(s) && ConsumerOk(s)
  }

  /** "Full" as the producer tests it: the slot after head is tail. */
  lemma FullTest<T>(s: State<T>)
    requires Core(s)
    ensures (s.head + 1) % s.n == s.tail <==> Held(s) == s.n - 1
    ensures s.head == s.tail <==> Held(s) == 0
  {
    ModSucc(|s.pushed|, s.n);
    ModEqual(|s.pushed|, |s.popped|, s.n);
    if Held(s) < s.n - 1 {
      ModEqual(|s.pushed| + 1, |s.popped|, s.n);
    } else {
      assert |s.pushed| + 1 == |s.popped| + s.n;
      var q, r := |s.popped| / s.n, |s.popped| % s.n;
      assert |s.popped| == q * s.n + r;
      assert |s.popped| + s.n == (q + 1) * s.n + r;
      ModOf(|s.popped| + s.n, q + 1, r, s.n);
    }
  }

  /** No slot is overwritten while it holds an unread value. */
  lemma SlotFree<T>(s: State<T>, i: nat)
    requires Core(s) && Held(s) < s.n - 1 && |s.popped| <= i < |s.pushed|
    ensures i % s.n != s.head
  {
    ModEqual(|s.pushed|, i, s.n);
  }

  lemma ProducerKeepsInv<T>(s: State<T>, e: Event<T>, s': State<T>)
    requires Inv(s) && Next(s, e, s')
    requires e.BeginPush? || e.LoadTail? || e.PushFull? || e.StoreSlot? || e.PublishHead?
    ensures Inv(s')
  {
    FullTest(s);
    match e
    case StoreSlot =>
      forall i | |s.popped| <= i < |s.pushed| ensures s'.buffer[i % s.n] == s.pushed[i] {
        SlotFree(s, i);
      }
    case PublishHead =>
      ModSucc(|s.pushed|, s.n);
      forall i | |s'.popped| <= i < |s'.pushed| ensures s'.buffer[i % s.n] == s'.pushed[i] {
        assert i < |s.pushed| ==> s.buffer[i % s.n] == s.pushed[i];
      }
    case _ =>
  }

  lemma ConsumerKeepsInv<T>(s: State<T>, e: Event<T>, s': State<T>)
    requires Inv(s) && Next(s, e, s')
    requires e.BeginPop? || e.LoadHead? || e.PopEmpty? || e.LoadSlot? || e.PublishTail?
    ensures Inv(s')
  {
    FullTest(s);
    match e
    case LoadSlot =>
      assert s.buffer[|s.popped| % s.n] == s.pushed[|s.popped|];
    case PublishTail =>
      ModSucc(|s.popped|, s.n);
    case _ =>
  }

  lemma SameSize<T>(s: State<T>, e: Event<T>, s': State<T>)
    requires Next(s, e, s')
    ensures s'.n == s.n
  {
  }

  /** Safety in every interleaving. */
  lemma {:induction false} ReachableInv<T(!new)>(s: State<T>, k: nat)
    requires ReachIn(s, k) && s.n > 0
    ensures Inv(s)
    decreases k
  {
    if k == 0 {
    } else {
      var p, e :| ReachIn(p, k - 1) && Next(p, e, s);
      SameSize(p, e, s);
      hide Next, Inv;
      ReachableInv(p, k - 1);
      if e.BeginPush? || e.LoadTail? || e.PushFull? || e.StoreSlot? || e.PublishHead? {
        ProducerKeepsInv(p, e, s);
      } else {
        ConsumerKeepsInv(p, e, s);
      }
    }
  }

  /** Nothing held, and no call past its first load. */
  ghost predicate Stuck<T>(s: State<T>) {
    && s.n == |s.buffer| == 0 && s.head == s.tail == 0 && s.pushed == s.popped == []
    && (s.producer.Idle? || (s.producer.Started? && s.producer.h == 0))
    && (s.consumer.Waiting? || (s.consumer.Looking? && s.consumer.t == 0))
  }

  lemma ZeroRingStep<T>(s: State<T>, e: Event<T>, s': State<T>)
    requires Stuck(s) && Next(s, e, s')
    ensures Stuck(s')
  {
  }

  /** A ring of 0 slots, which the compile-time test lets through: no push gets past its test,
      and nothing is ever held. */
  lemma {:induction false} ZeroRing<T(!new)>(s: State<T>, k: nat)
    requires ReachIn(s, k) && s.n == 0
    ensures Stuck(s)
    decreases k
  {
    if k == 0 {
    } else {
      var p, e :| ReachIn(p, k - 1) && Next(p, e, s);
      SameSize(p, e, s);
      hide Next, Stuck;
      ZeroRing(p, k - 1);
      ZeroRingStep(p, e, s);
    }
  }

  /** In every interleaving what was popped is a prefix of what was pushed, in order, and at
      most n - 1 values are held (none in a ring of 0 slots). */
  lemma Fifo<T(!new)>(s: State<T>, k: nat)
    requires ReachIn(s, k)
    ensures s.popped <= s.pushed
    ensures |s.pushed| - |s.popped| <= if s.n == 0 then 0 else s.n - 1
  {
    hide ReachIn;
    if s.n == 0 {
      ZeroRing(s, k);
    } else {
      ReachableInv(s, k);
    }
  }

  /** A store never hits a slot whose value has not been popped, a failed push means the ring
      really was full, a failed pop that it really was empty, and a load returns the oldest
      value not yet popped. */
  lemma StepsAreSound<T(!new)>(s: State<T>, k: nat, e: Event<T>, s': State<T>)
    requires ReachIn(s, k) && Next(s, e, s')
    ensures e.StoreSlot? ==>
              s.n > 0 && forall i :: |s.popped| <= i < |s.pushed| ==> i % s.n != s.producer.h
    ensures e.PushFull? ==> |s.pushed| - |s.popped| == s.n - 1
    ensures e.PopEmpty? ==> s.pushed == s.popped
    ensures e.LoadSlot? ==> |s.popped| < |s.pushed| && s'.consumer.value == s.pushed[|s.popped|]
  {
    hide ReachIn;
    if s.n == 0 {
      ZeroRing(s, k);
    } else {
      ReachableInv(s, k);
      FullTest(s);
      if e.StoreSlot? {
        forall i | |s.popped| <= i < |s.pushed| ensures i % s.n != s.producer.h {
          SlotFree(s, i);
        }
      }
      if e.LoadSlot? {
        ConsumerKeepsInv(s, e, s');
      }
    }
  }

  // ---------------------------------------------------------------- masks and powers of two

  /** Bitwise and of two natural numbers. */
  function And(x: nat, y: nat): nat {
    if x == 0 || y == 0 then 0
    else 2 * And(x / 2, y / 2) + if x % 2 == 1 && y % 2 == 1 then 1 else 0
  }

  lemma AndUnfold(x: nat, y: nat)
    ensures And(x, y) == 2 * And(x / 2, y / 2) + if x % 2 == 1 && y % 2 == 1 then 1 else 0
  {
  }

  lemma AndZero(x: nat)
    ensures And(x, 0) == 0
  {
  }

  lemma ModDouble(x: nat, m: nat)
    requires m > 0
    ensures x % (2 * m) == 2 * (x / 2 % m) + x % 2
  {
    var q, r := x / 2 / m, x / 2 % m;
    assert x / 2 == q * m + r;
    assert x == q * (2 * m) + (2 * r + x % 2);
    ModOf(x, q, 2 * r + x % 2, 2 * m);
  }

  /** Masking with 2^k - 1 is reduction modulo 2^k. */
  lemma {:induction false} MaskIsMod(x: nat, k: nat)
    ensures And(x, Pow2(k) - 1) == x % Pow2(k)
    decreases k
  {
    hide And;
    if k == 0 {
      AndZero(x);
    } else {
      var m := Pow2(k - 1);
      assert Pow2(k) == 2 * m;
      MaskIsMod(x / 2, k - 1);
      AndUnfold(x, 2 * m - 1);
      assert (2 * m - 1) / 2 == m - 1 && (2 * m - 1) % 2 == 1;
      ModDouble(x, m);
    }
  }

  lemma {:induction false} AndSelf(x: nat)
    ensures And(x, x) == x
  {
    if x == 0 {
    } else {
      AndUnfold(x, x);
      AndSelf(x / 2);
    }
  }

  ghost predicate IsPow2(n: nat) {
    exists k :: Pow2(k) == n
  }

  lemma Pow2OfDouble(n: nat)
    requires n > 0
    ensures IsPow2(2 * n) <==> IsPow2(n)
  {
    if IsPow2(n) {
      var k: nat :| Pow2(k) == n;
      assert Pow2(k + 1) == 2 * n;
    }
    if IsPow2(2 * n) {
      var k: nat :| Pow2(k) == 2 * n;
      assert k > 0;
      assert Pow2(k - 1) == n;
    }
  }

  lemma {:induction false} Pow2Odd(k: nat)
    ensures Pow2(k) == 1 || Pow2(k) % 2 == 0
  {
    if k == 0 {
    } else {
      assert Pow2(k) == 2 * Pow2(k - 1);
      DoubleIsEven(Pow2(k - 1));
    }
  }

  lemma DoubleIsEven(m: nat)
    ensures 2 * m % 2 == 0
  {
  }

  lemma {:induction false} PowerOfTwoMask(n: nat)
    requires n > 0
    ensures And(n, n - 1) == 0 <==> IsPow2(n)
  {
    hide And, IsPow2;
    AndUnfold(n, n - 1);
    if n == 1 {
      AndZero(1);
      OneIsPow2();
    } else if n % 2 == 1 {
      assert (n - 1) / 2 == n / 2;
      AndSelf(n / 2);
      OddIsNotPow2(n);
    } else {
      assert (n - 1) / 2 == n / 2 - 1 && n == 2 * (n / 2);
      PowerOfTwoMask(n / 2);
      Pow2OfDouble(n / 2);
    }
  }

  /** The compile-time test `(N & (N - 1)) == 0` in size_t: it admits the powers of two, and 0. */
  lemma PowerOfTwoTest(n: nat)
    requires n < SIZE_MODULUS
    ensures PassesTest(n) <==> n == 0 || IsPow2(n)
  {
    if n > 0 {
      PowerOfTwoMask(n);
    }
  }

  predicate PassesTest(n: nat) {
    And(n, Mask(n)) == 0
  }

  /** `N - 1` in size_t. */
  function Mask(n: nat): nat {
    (n - 1) % SIZE_MODULUS
  }

  lemma OneIsPow2()
    ensures IsPow2(1)
  {
    assert Pow2(0) == 1;
  }

  lemma OddIsNotPow2(n: nat)
    requires n > 1 && n % 2 == 1
    ensures !IsPow2(n)
  {
    forall k: nat ensures Pow2(k) != n {
      Pow2Odd(k);
    }
  }

  const SIZE_MODULUS: nat := 0x1_0000_0000_0000_0000

  // The three queries, as functions of the two values they load.

  function Size(h: nat, t: nat, n: nat): nat {
    And((h - t) % SIZE_MODULUS, Mask(n))
  }

  predicate Empty(h: nat, t: nat) {
    h == t
  }

  predicate Full(h: nat, t: nat, n: nat) {
    And((h + 1) % SIZE_MODULUS, Mask(n)) == And(t, Mask(n))
  }

  lemma SizeModulusIsPow2()
    ensures SIZE_MODULUS == Pow2(64)
  {
    assert Pow2(4) == 16;
    Pow2Splits(4, 8);
    Pow2Splits(8, 16);
    Pow2Splits(16, 32);
    Pow2Splits(32, 64);
  }

  /** Reducing modulo c * n first does not change the remainder modulo n. */
  lemma WrapThenMod(x: int, c: nat, n: nat, r: nat, j: int)
    requires c > 0 && r < n && x == j * n + r && c * n > 0
    ensures x % (c * n) % n == r
  {
    var q := x / (c * n);
    var y := x % (c * n);
    assert y == x - q * (c * n);
    assert q * (c * n) == (q * c) * n;
    assert (j - q * c) * n == j * n - (q * c) * n;
    ModOf(y, j - q * c, r, n);
  }

  /** Masking a value reduced modulo 2^64, as size_t arithmetic leaves it. */
  lemma WrapThenMask(x: int, k: nat, r: nat, j: int)
    requires k <= 64 && r < Pow2(k) && x == j * Pow2(k) + r
    ensures And(x % SIZE_MODULUS, Pow2(k) - 1) == r
  {
    hide And, Pow2;
    SizeModulusIsPow2();
    Pow2Splits(k, 64);
    WrapThenMod(x, Pow2(64 - k), Pow2(k), r, j);
    MaskIsMod(x % SIZE_MODULUS, k);
  }

  lemma {:induction false} Pow2Grows(k: nat)
    requires k >= 64
    ensures Pow2(k) >= SIZE_MODULUS
    decreases k
  {
    if k == 64 {
      SizeModulusIsPow2();
    } else {
      Pow2Grows(k - 1);
    }
  }

  /** What the compile-time test gives: the capacity is 2^k for some k below 64. */
  lemma CapacityExponent(n: nat) returns (k: nat)
    requires 0 < n < SIZE_MODULUS && PassesTest(n)
    ensures k < 64 && n == Pow2(k)
  {
    PowerOfTwoTest(n);
    k :| Pow2(k) == n;
    if k >= 64 {
      Pow2Grows(k);
    }
  }

  lemma SizeMask(h: nat, t: nat, n: nat, k: nat)
    requires n == Pow2(k) && k < 64 && n < SIZE_MODULUS && h < n && t < n
    ensures Size(h, t, n) == (h - t) % n == if h >= t then h - t else h - t + n
  {
    hide And, Pow2;
    if h >= t {
      WrapThenMask(h - t, k, h - t, 0);
      ModOf(h - t, 0, h - t, n);
    } else {
      WrapThenMask(h - t, k, h - t + n, -1);
      ModOf(h - t, -1, h - t + n, n);
    }
  }

  lemma FullMask(h: nat, t: nat, n: nat, k: nat)
    requires n == Pow2(k) && k < 64 && n < SIZE_MODULUS && h < n && t < n
    ensures Full(h, t, n) <==> t == if h + 1 == n then 0 else h + 1
  {
    hide And, Pow2;
    if h + 1 < n {
      WrapThenMask(h + 1, k, h + 1, 0);
    } else {
      WrapThenMask(h + 1, k, 0, 1);
    }
    MaskIsMod(t, k);
    ModOf(t, 0, t, n);
  }

  /** The mask formulas on any two indices of a ring that passes the compile-time test. */
  lemma MaskFormulas(h: nat, t: nat, n: nat)
    requires 0 < n < SIZE_MODULUS && PassesTest(n) && h < n && t < n
    ensures Size(h, t, n) == (h - t) % n
    ensures Empty(h, t) <==> Size(h, t, n) == 0
    ensures Full(h, t, n) <==> Size(h, t, n) == n - 1
  {
    var k := CapacityExponent(n);
    hide And, Pow2, Size, Full;
    SizeMask(h, t, n, k);
    FullMask(h, t, n, k);
  }

  /** In a ring of 0 slots both indices stay 0: `size` is 0, `empty` holds, and `full` is false
      although nothing fits. */
  lemma ZeroRingQueries<T(!new)>(s: State<T>, k: nat)
    requires ReachIn(s, k) && s.n == 0
    ensures Size(s.head, s.tail, s.n) == 0 && Empty(s.head, s.tail) && !Full(s.head, s.tail, s.n)
  {
    hide ReachIn;
    ZeroRing(s, k);
    var all := Mask(0);
    assert all == SIZE_MODULUS - 1;
    AndUnfold(1, all);
  }
}
