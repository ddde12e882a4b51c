/** What the ring lets its two threads finish: each call ends within four steps of its own
    thread, a push succeeds unless the ring is full and a pop unless it is empty. */
module SpscProgress {
  import opened SpscQueue
  import opened SpscQueries

  // ---------------------------------------------------------------- runs of one thread

  /** The steps `events` lead from `s` to `t`. */
  ghost predicate Run<T(!new)>(s: State<T>, events: seq<Event<T>>, t: State<T>)
    decreases |events|
  {
    if events == [] then t == s
    else
      var init, last := events[..|events| - 1], events[|events| - 1];
      exists m :: Run(s, init, m) && Next(m, last, t)
  }

  ghost predicate ProducerOnly<T>(events: seq<Event<T>>) {
    forall i :: 0 <= i < |events| ==> ByProducer(events[i])
  }

  ghost predicate ConsumerOnly<T>(events: seq<Event<T>>) {
    forall i :: 0 <= i < |events| ==> !ByProducer(events[i])
  }

  lemma RunNothing<T(!new)>(s: State<T>)
    ensures Run(s, [], s)
  {
  }

  lemma RunSnoc<T(!new)>(s: State<T>, events: seq<Event<T>>, m: State<T>, e: Event<T>, t: State<T>)
    requires Run(s, events, m) && Next(m, e, t)
    ensures Run(s, events + [e], t)
  {
    hide Next;
    assert (events + [e])[..|events|] == events;
  }

  lemma {:induction false} RunConcat<T(!new)>(s: State<T>, a: seq<Event<T>>, m: State<T>, b: seq<Event<T>>, t: State<T>)
    requires Run(s, a, m) && Run(m, b, t)
    ensures Run(s, a + b, t)
    decreases |b|
  {
    hide Next;
    if b == [] {
      assert a + b == a;
    } else {
      var init, last := b[..|b| - 1], b[|b| - 1];
      var u :| Run(m, init, u) && Next(u, last, t);
      RunConcat(s, a, m, init, u);
      RunSnoc(s, a + init, u, last, t);
      assert a + b == a + init + [last];
    }
  }

  lemma {:induction false} RunReaches<T(!new)>(s: State<T>, k: nat, events: seq<Event<T>>, t: State<T>)
    requires ReachIn(s, k) && Run(s, events, t)
    ensures ReachIn(t, k + |events|)
    decreases |events|
  {
    hide Next;
    if events == [] {
    } else {
      var n := |events| - 1;
      var init, last := events[..n], events[n];
      var m :| Run(s, init, m) && Next(m, last, t);
      RunReaches(s, k, init, m);
      assert ReachIn(m, k + |events| - 1);
    }
  }

  // ---------------------------------------------------------------- which step comes next

  ghost predicate Enabled<T(!new)>(s: State<T>, e: Event<T>) {
    exists t :: Next(s, e, t)
  }

  /** What the invariant tells the two threads about their indices and tests. */
  lemma Facts<T(!new)>(s: State<T>, k: nat)
    requires ReachIn(s, k) && s.n > 0
    ensures |s.buffer| == s.n && s.head < s.n && s.tail < s.n && 0 <= Held(s) <= s.n - 1
    ensures (s.head + 1) % s.n == s.tail <==> Held(s) == s.n - 1
    ensures s.head == s.tail <==> Held(s) == 0
    ensures Held(s) > 0 ==> s.buffer[s.tail] == s.pushed[|s.popped|]
    ensures !s.producer.Idle? ==> s.producer.h == s.head
    ensures s.consumer.Looking? || s.consumer.Found? || s.consumer.Holding? ==> s.consumer.t == s.tail
  {
    ReachableInv(s, k);
    FullTest(s);
    hide ReachIn;
    assert Held(s) > 0 ==> s.buffer[|s.popped| % s.n] == s.pushed[|s.popped|];
  }

  /** The producer always has exactly one kind of step: its test goes on exactly when fewer than
      n - 1 values are held, and fails exactly when n - 1 are. */
  lemma ProducerStepIs<T(!new)>(s: State<T>, k: nat, v: T)
    requires ReachIn(s, k) && s.n > 0
    ensures Enabled(s, BeginPush(v)) <==> s.producer.Idle?
    ensures Enabled(s, LoadTail) <==> s.producer.Started? && Held(s) < s.n - 1
    ensures Enabled(s, PushFull) <==> s.producer.Started? && Held(s) == s.n - 1
    ensures Enabled(s, StoreSlot) <==> s.producer.Ready?
    ensures Enabled(s, PublishHead) <==> s.producer.Written?
  {
    hide ReachIn;
    Facts(s, k);
    match s.producer
    case Idle =>
      assert Next(s, BeginPush(v), s.(producer := Started(v, s.head)));
    case Started(value, h) =>
      assert Held(s) < s.n - 1 ==> Next(s, LoadTail, s.(producer := Ready(value, h)));
      assert Held(s) == s.n - 1 ==> Next(s, PushFull, s.(producer := Idle));
    case Ready(value, h) =>
      assert Next(s, StoreSlot, s.(buffer := s.buffer[h := value], producer := Written(value, h)));
    case Written(value, h) =>
      assert Next(s, PublishHead, s.(head := (h + 1) % s.n, producer := Idle, pushed := s.pushed + [value]));
  }

  /** The same for the consumer: it goes on exactly when a value is held. */
  lemma ConsumerStepIs<T(!new)>(s: State<T>, k: nat)
    requires ReachIn(s, k) && s.n > 0
    ensures Enabled(s, BeginPop) <==> s.consumer.Waiting?
    ensures Enabled(s, LoadHead) <==> s.consumer.Looking? && Held(s) > 0
    ensures Enabled(s, PopEmpty) <==> s.consumer.Looking? && Held(s) == 0
    ensures Enabled(s, LoadSlot) <==> s.consumer.Found?
    ensures Enabled(s, PublishTail) <==> s.consumer.Holding?
  {
    hide ReachIn;
    Facts(s, k);
    match s.consumer
    case Waiting =>
      assert Next(s, BeginPop, s.(consumer := Looking(s.tail)));
    case Looking(t) =>
      assert Held(s) > 0 ==> Next(s, LoadHead, s.(consumer := Found(t)));
      assert Held(s) == 0 ==> Next(s, PopEmpty, s.(consumer := Waiting));
    case Found(t) =>
      assert Next(s, LoadSlot, s.(consumer := Holding(t, s.buffer[t])));
    case Holding(t, value) =>
      assert Next(s, PublishTail, s.(tail := (t + 1) % s.n, consumer := Waiting, popped := s.popped + [value]));
  }

  // ---------------------------------------------------------------- a push

  /** The ring after a push took effect. */
  function Pushed<T>(s: State<T>, v: T): State<T>
    requires s.n > 0 && s.head < |s.buffer|
  {
    s.(buffer := s.buffer[s.head := v], head := (s.head + 1) % s.n, pushed := s.pushed + [v])
  }

  /** Left alone, a push into a ring with room takes effect. */
  lemma PushCompletes<T(!new)>(s: State<T>, k: nat, v: T) returns (events: seq<Event<T>>)
    requires ReachIn(s, k) && s.n > 0 && s.producer == Idle && Held(s) < s.n - 1
    ensures s.head < |s.buffer| && Run(s, events, Pushed(s, v)) && ProducerOnly(events)
  {
    hide ReachIn, Run;
    Facts(s, k);
    RunNothing(s);
    var a := s.(producer := Started(v, s.head));
    var b := s.(producer := Ready(v, s.head));
    var c := s.(buffer := s.buffer[s.head := v], producer := Written(v, s.head));
    RunSnoc(s, [], s, BeginPush(v), a);
    RunSnoc(s, [] + [BeginPush(v)], a, LoadTail, b);
    RunSnoc(s, [] + [BeginPush(v)] + [LoadTail], b, StoreSlot, c);
    RunSnoc(s, [] + [BeginPush(v)] + [LoadTail] + [StoreSlot], c, PublishHead, Pushed(s, v));
    events := [] + [BeginPush(v)] + [LoadTail] + [StoreSlot] + [PublishHead];
  }

  /** Left alone, a push into a full ring fails and changes nothing. */
  lemma PushFails<T(!new)>(s: State<T>, k: nat, v: T)
    requires ReachIn(s, k) && s.n > 0 && s.producer == Idle && Held(s) == s.n - 1
    ensures Run(s, [BeginPush(v), PushFull], s)
  {
    hide ReachIn, Run;
    Facts(s, k);
    RunNothing(s);
    var a := s.(producer := Started(v, s.head));
    RunSnoc(s, [], s, BeginPush(v), a);
    RunSnoc(s, [] + [BeginPush(v)], a, PushFull, s);
    assert [] + [BeginPush(v)] + [PushFull] == [BeginPush(v), PushFull];
  }

  // ---------------------------------------------------------------- a pop

  function Popped<T>(s: State<T>): State<T>
    requires s.n > 0 && |s.popped| < |s.pushed|
  {
    s.(tail := (s.tail + 1) % s.n, popped := s.popped + [s.pushed[|s.popped|]])
  }

  /** Left alone, a pop from a ring that holds a value returns the oldest one. */
  lemma PopCompletes<T(!new)>(s: State<T>, k: nat) returns (events: seq<Event<T>>)
    requires ReachIn(s, k) && s.n > 0 && s.consumer == Waiting && Held(s) > 0
    ensures Run(s, events, Popped(s)) && ConsumerOnly(events)
  {
    hide ReachIn, Run;
    Facts(s, k);
    RunNothing(s);
    var v := s.pushed[|s.popped|];
    var a := s.(consumer := Looking(s.tail));
    var b := s.(consumer := Found(s.tail));
    var c := s.(consumer := Holding(s.tail, v));
    RunSnoc(s, [], s, BeginPop, a);
    RunSnoc(s, [] + [BeginPop], a, LoadHead, b);
    RunSnoc(s, [] + [BeginPop] + [LoadHead], b, LoadSlot, c);
    RunSnoc(s, [] + [BeginPop] + [LoadHead] + [LoadSlot], c, PublishTail, Popped(s));
    events := [] + [BeginPop] + [LoadHead] + [LoadSlot] + [PublishTail];
  }

  /** Left alone, a pop from an empty ring reports it and changes nothing. */
  lemma PopFails<T(!new)>(s: State<T>, k: nat)
    requires ReachIn(s, k) && s.n > 0 && s.consumer == Waiting && Held(s) == 0
    ensures Run(s, [BeginPop, PopEmpty], s)
  {
    hide ReachIn, Run;
    Facts(s, k);
    RunNothing(s);
    var a := s.(consumer := Looking(s.tail));
    RunSnoc(s, [], s, BeginPop, a);
    RunSnoc(s, [] + [BeginPop], a, PopEmpty, s);
    var events: seq<Event<T>> := [BeginPop, PopEmpty];
    assert [] + [BeginPop] + [PopEmpty] == events;
  }

  // ---------------------------------------------------------------- many calls in a row

  /** As many pushes in a row succeed as there is room for. */
  lemma {:induction false} PushAll<T(!new)>(s: State<T>, k: nat, values: seq<T>)
    returns (events: seq<Event<T>>, t: State<T>)
    requires ReachIn(s, k) && s.n > 0 && s.producer == Idle && Held(s) + |values| <= s.n - 1
    ensures Run(s, events, t) && ProducerOnly(events)
    ensures t.n == s.n && t.producer == Idle && t.consumer == s.consumer
    ensures t.pushed == s.pushed + values && t.popped == s.popped
  {
    hide Run, Next, ReachIn;
    if values == [] {
      RunNothing(s);
      events, t := [], s;
    } else {
      var m := |values| - 1;
      var mid;
      events, mid := PushAll(s, k, values[..m]);
      RunReaches(s, k, events, mid);
      var more := PushCompletes(mid, k + |events|, values[m]);
      t := Pushed(mid, values[m]);
      RunConcat(s, events, mid, more, t);
      events := events + more;
    }
  }

  /** As many pops in a row succeed as there are values, oldest first. */
  lemma {:induction false} PopAll<T(!new)>(s: State<T>, k: nat, count: nat)
    returns (events: seq<Event<T>>, t: State<T>)
    requires ReachIn(s, k) && s.n > 0 && s.consumer == Waiting && count <= Held(s)
    ensures Run(s, events, t) && ConsumerOnly(events)
    ensures t.n == s.n && t.consumer == Waiting && t.producer == s.producer
    ensures t.pushed == s.pushed && t.popped == s.popped + s.pushed[|s.popped|..|s.popped| + count]
  {
    hide Run, Next, ReachIn;
    if count == 0 {
      RunNothing(s);
      events, t := [], s;
    } else {
      var mid;
      events, mid := PopAll(s, k, count - 1);
      RunReaches(s, k, events, mid);
      var more := PopCompletes(mid, k + |events|);
      t := Popped(mid);
      RunConcat(s, events, mid, more, t);
      events := events + more;
    }
  }

  /** A new ring of n slots takes n - 1 values in a row and refuses the next. */
  lemma FillRing<T(!new)>(s: State<T>, values: seq<T>, extra: T) returns (pushes: seq<Event<T>>, full: State<T>)
    requires Init(s) && |values| == s.n - 1
    ensures Run(s, pushes, full) && ProducerOnly(pushes) && Run(full, [BeginPush(extra), PushFull], full)
    ensures full.pushed == values && full.popped == [] && full.n == s.n && full.consumer == Waiting
    ensures ReachIn(full, |pushes|)
  {
    hide Run, Next;
    pushes, full := PushAll(s, 0, values);
    assert [] + values == values;
    hide ReachIn;
    RunReaches(s, 0, pushes, full);
    PushFails(full, |pushes|, extra);
  }

  /** Whatever is held can be popped, in the order in which it came, and then the ring is empty. */
  lemma DrainRing<T(!new)>(s: State<T>, k: nat) returns (pops: seq<Event<T>>, drained: State<T>)
    requires ReachIn(s, k) && s.n > 0 && s.consumer == Waiting
    ensures Run(s, pops, drained) && ConsumerOnly(pops) && Run(drained, [BeginPop, PopEmpty], drained)
    ensures drained.popped == drained.pushed == s.pushed
  {
    hide Run, Next;
    ReachableInv(s, k);
    var held := Held(s);
    var rest := s.pushed[|s.popped|..];
    assert s.popped + rest == s.pushed;
    hide ReachIn, Inv;
    pops, drained := PopAll(s, k, held);
    assert s.pushed[|s.popped|..|s.popped| + held] == rest;
    RunReaches(s, k, pops, drained);
    PopFails(drained, k + |pops|);
  }

  // ---------------------------------------------------------------- no call waits for the other thread

  /** Steps a call still has to take at most. */
  function ProducerRank<T>(p: Producer<T>): nat {
    match p
    case Idle => 0
    case Started(_, _) => 3
    case Ready(_, _) => 2
    case Written(_, _) => 1
  }

  function ConsumerRank<T>(c: Consumer<T>): nat {
    match c
    case Waiting => 0
    case Looking(_) => 3
    case Found(_) => 2
    case Holding(_, _) => 1
  }

  lemma ProducerAdvances<T(!new)>(s: State<T>, k: nat) returns (e: Event<T>, t: State<T>)
    requires ReachIn(s, k) && s.n > 0 && s.producer != Idle
    ensures Next(s, e, t) && ByProducer(e) && ProducerRank(t.producer) < ProducerRank(s.producer)
  {
    hide ReachIn;
    Facts(s, k);
    match s.producer
    case Started(v, h) =>
      if (h + 1) % s.n == s.tail {
        e, t := PushFull, s.(producer := Idle);
      } else {
        e, t := LoadTail, s.(producer := Ready(v, h));
      }
    case Ready(v, h) =>
      e, t := StoreSlot, s.(buffer := s.buffer[h := v], producer := Written(v, h));
    case Written(v, h) =>
      e, t := PublishHead, s.(head := (h + 1) % s.n, producer := Idle, pushed := s.pushed + [v]);
  }

  lemma ConsumerAdvances<T(!new)>(s: State<T>, k: nat) returns (e: Event<T>, t: State<T>)
    requires ReachIn(s, k) && s.n > 0 && s.consumer != Waiting
    ensures Next(s, e, t) && !ByProducer(e) && ConsumerRank(t.consumer) < ConsumerRank(s.consumer)
  {
    hide ReachIn;
    Facts(s, k);
    match s.consumer
    case Looking(i) =>
      if s.head == i {
        e, t := PopEmpty, s.(consumer := Waiting);
      } else {
        e, t := LoadHead, s.(consumer := Found(i));
      }
    case Found(i) =>
      e, t := LoadSlot, s.(consumer := Holding(i, s.buffer[i]));
    case Holding(i, v) =>
      e, t := PublishTail, s.(tail := (i + 1) % s.n, consumer := Waiting, popped := s.popped + [v]);
  }

  lemma RunCons<T(!new)>(s: State<T>, e: Event<T>, m: State<T>, events: seq<Event<T>>, t: State<T>)
    requires Next(s, e, m) && Run(m, events, t)
    ensures Run(s, [e] + events, t)
  {
    RunNothing(s);
    hide Run, Next;
    RunSnoc(s, [], s, e, m);
    assert [] + [e] == [e];
    RunConcat(s, [e], m, events, t);
  }

  /** Wherever it stands, the producer's own steps alone bring it back to rest, in at most three. */
  lemma {:induction false} ProducerWaitFree<T(!new)>(s: State<T>, k: nat) returns (events: seq<Event<T>>, t: State<T>)
    requires ReachIn(s, k) && s.n > 0
    ensures Run(s, events, t) && ProducerOnly(events) && t.producer == Idle
    ensures |events| <= ProducerRank(s.producer) <= 3
    decreases ProducerRank(s.producer)
  {
    if s.producer == Idle {
      RunNothing(s);
      events, t := [], s;
    } else {
      var e, m := ProducerAdvances(s, k);
      SameSize(s, e, m);
      assert ReachIn(s, k + 1 - 1);
      hide Run, Next;
      var more;
      more, t := ProducerWaitFree(m, k + 1);
      RunCons(s, e, m, more, t);
      events := [e] + more;
    }
  }

  /** And the consumer's. */
  lemma {:induction false} ConsumerWaitFree<T(!new)>(s: State<T>, k: nat) returns (events: seq<Event<T>>, t: State<T>)
    requires ReachIn(s, k) && s.n > 0
    ensures Run(s, events, t) && ConsumerOnly(events) && t.consumer == Waiting
    ensures |events| <= ConsumerRank(s.consumer) <= 3
    decreases ConsumerRank(s.consumer)
  {
    if s.consumer == Waiting {
      RunNothing(s);
      events, t := [], s;
    } else {
      var e, m := ConsumerAdvances(s, k);
      SameSize(s, e, m);
      assert ReachIn(s, k + 1 - 1);
      hide Run, Next;
      var more;
      more, t := ConsumerWaitFree(m, k + 1);
      RunCons(s, e, m, more, t);
      events := [e] + more;
    }
  }
}
