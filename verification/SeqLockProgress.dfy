/** What the seqlock lets a thread finish: a write always completes, and a read that nothing
    disturbs is accepted at once and returns the latest value. */
module SeqLockProgress {
  import opened SeqLock

  // ---------------------------------------------------------------- runs of one thread

  /** The steps `events` lead from `s` to `t`. */
  ghost predicate Run(s: State, events: seq<Event>, t: State)
    decreases |events|
  {
    if events == [] then t == s
    else
      var init, last := events[..|events| - 1], events[|events| - 1];
      exists m :: Run(s, init, m) && Next(m, last, t)
  }

  predicate ByReader(e: Event, r: ReaderId) {
    (e.BeginRead? || e.Spin? || e.LoadWord? || e.Accept? || e.Retry?) && e.reader == r
  }

  predicate ByWriter(e: Event) {
    e.BeginWrite? || e.StoreWord? || e.EndWrite?
  }

  /** Steps of reader `r` alone, none of them a retry and none a wait. */
  ghost predicate Undisturbed(events: seq<Event>, r: ReaderId) {
    forall i :: 0 <= i < |events| ==> ByReader(events[i], r) && !events[i].Retry? && !events[i].Spin?
  }

  ghost predicate WriterOnly(events: seq<Event>) {
    forall i :: 0 <= i < |events| ==> ByWriter(events[i])
  }

  lemma RunNothing(s: State)
    ensures Run(s, [], s)
  {
  }

  lemma RunSnoc(s: State, events: seq<Event>, m: State, e: Event, t: State)
    requires Run(s, events, m) && Next(m, e, t)
    ensures Run(s, events + [e], t)
  {
    hide Next;
    assert (events + [e])[..|events|] == events;
  }

  lemma {:induction false} RunConcat(s: State, a: seq<Event>, m: State, b: seq<Event>, t: State)
    requires Run(s, a, m) && Run(m, b, t)
    ensures Run(s, a + b, t)
    decreases |b|
  {
    hide Next;
    if b == [] {
      assert a + b == a;
    } else {
      var n := |b| - 1;
      var u :| Run(m, b[..n], u) && Next(u, b[n], t);
      RunConcat(s, a, m, b[..n], u);
      RunSnoc(s, a + b[..n], u, b[n], t);
      assert a + b == a + b[..n] + [b[n]];
    }
  }

  lemma {:induction false} RunReaches(s: State, k: nat, events: seq<Event>, t: State)
    requires ReachIn(s, k) && Run(s, events, t)
    ensures ReachIn(t, k + |events|)
    decreases |events|
  {
    hide Next;
    if events == [] {
    } else {
      var n := |events| - 1;
      var m :| Run(s, events[..n], m) && Next(m, events[n], t);
      RunReaches(s, k, events[..n], m);
      Step(m, k + n, events[n], t);
    }
  }

  // ---------------------------------------------------------------- which steps a reader has

  ghost predicate Enabled(s: State, e: Event) {
    exists t :: Next(s, e, t)
  }

  /** Outside a read a thread can begin exactly while no write is in progress, and otherwise
      it waits. */
  lemma BeginsIffResting(s: State, k: nat, r: ReaderId)
    requires ReachIn(s, k) && s.ReaderOf(r) == Outside
    ensures Enabled(s, BeginRead(r)) <==> s.writer == Resting
    ensures Enabled(s, Spin(r)) <==> s.writer.Writing?
  {
    ReachableInv(s, k);
    SeqParity(s.ticks);
    var t := s.(readers := s.readers[r := Reading(s.Seq(), s.ticks, map[])]);
    assert Next(s, BeginRead(r), t) <==> s.Seq() % 2 == 0;
    assert Next(s, Spin(r), s) <==> s.Seq() % 2 == 1;
  }

  ghost predicate CanAccept(s: State, r: ReaderId) {
    exists result :: Enabled(s, Accept(r, result))
  }

  /** Inside a read, with the words loaded, it is accepted exactly when the counter stands where
      the reader found it, up to full turns, and is begun again exactly when it does not. */
  lemma AcceptsIffUnchanged(s: State, k: nat, r: ReaderId)
    requires ReachIn(s, k) && s.ReaderOf(r).Reading?
    ensures var moved := s.ticks - s.ReaderOf(r).start;
            && moved >= 0
            && (Enabled(s, Retry(r)) <==> moved % SEQ_MODULUS != 0)
            && (CanAccept(s, r) <==> moved % SEQ_MODULUS == 0 && AllLoaded(s.width, s.ReaderOf(r).got))
  {
    ReachableInv(s, k);
    var reader := s.ReaderOf(r);
    assert ReaderOk(s, reader);
    hide ReachIn, Inv, DataOk;
    SameRemainder(s.ticks, reader.start);
    var t := s.(readers := s.readers[r := Outside]);
    assert Next(s, Retry(r), t) <==> s.Seq() != reader.mark;
    if s.Seq() == reader.mark && AllLoaded(s.width, reader.got) {
      var result := seq(s.width, i requires 0 <= i < s.width => reader.got[i]);
      assert Next(s, Accept(r, result), t);
      assert Enabled(s, Accept(r, result));
    }
  }

  lemma SameRemainder(x: nat, y: nat)
    requires y <= x
    ensures x % SEQ_MODULUS == y % SEQ_MODULUS <==> (x - y) % SEQ_MODULUS == 0
  {
  }

  // ---------------------------------------------------------------- reading

  /** The first `i` words of the data, as a reader holds them. */
  function FirstWords(data: seq<Word>, i: nat): map<nat, Word>
    requires i <= |data|
  {
    map k | 0 <= k < i :: data[k]
  }

  /** `s` with reader `r` in the middle of a read. */
  function Reader(s: State, r: ReaderId, i: nat): State
    requires i <= |s.data|
  {
    s.(readers := s.readers[r := Reading(s.Seq(), s.ticks, FirstWords(s.data, i))])
  }

  lemma {:induction false} LoadsUpTo(s: State, r: ReaderId, i: nat) returns (events: seq<Event>)
    requires s.ReaderOf(r) == Outside && s.Seq() % 2 == 0 && i <= |s.data|
    ensures Run(s, events, Reader(s, r, i)) && Undisturbed(events, r)
  {
    hide Run, Next, Reader;
    if i == 0 {
      RunNothing(s);
      BeginReading(s, r);
      RunSnoc(s, [], s, BeginRead(r), Reader(s, r, 0));
      events := [] + [BeginRead(r)];
    } else {
      events := LoadsUpTo(s, r, i - 1);
      LoadOne(s, r, i - 1);
      RunSnoc(s, events, Reader(s, r, i - 1), LoadWord(r, i - 1), Reader(s, r, i));
      events := events + [LoadWord(r, i - 1)];
    }
  }

  lemma BeginReading(s: State, r: ReaderId)
    requires s.ReaderOf(r) == Outside && s.Seq() % 2 == 0
    ensures Next(s, BeginRead(r), Reader(s, r, 0))
  {
    assert FirstWords(s.data, 0) == map[];
  }

  lemma LoadOne(s: State, r: ReaderId, i: nat)
    requires i < |s.data|
    ensures Next(Reader(s, r, i), LoadWord(r, i), Reader(s, r, i + 1))
  {
    var before, after := Reader(s, r, i), Reader(s, r, i + 1);
    assert FirstWords(s.data, i)[i := s.data[i]] == FirstWords(s.data, i + 1);
    assert before.readers[r := after.readers[r]] == after.readers;
  }

  /** With no write in progress, the steps of reader `r` alone, without a retry, end in the
      acceptance of the latest value and leave everything else as it was. */
  lemma ReadCompletes(s: State, k: nat, r: ReaderId) returns (events: seq<Event>, t: State)
    requires ReachIn(s, k) && s.writer == Resting && s.ReaderOf(r) == Outside
    ensures s.history != [] && Run(s, events, t) && Undisturbed(events, r)
    ensures events != [] && events[|events| - 1] == Accept(r, Latest(s))
    ensures t == s.(readers := s.readers[r := Outside])
  {
    ReachableInv(s, k);
    SeqParity(s.ticks);
    hide ReachIn, Inv, Run;
    events := LoadsUpTo(s, r, s.width);
    t := s.(readers := s.readers[r := Outside]);
    AcceptAll(s, r, t);
    RunSnoc(s, events, Reader(s, r, s.width), Accept(r, s.data), t);
    events := events + [Accept(r, s.data)];
  }

  lemma AcceptAll(s: State, r: ReaderId, t: State)
    requires |s.data| == s.width && t == s.(readers := s.readers[r := Outside])
    ensures Next(Reader(s, r, s.width), Accept(r, s.data), t)
  {
    assert Reader(s, r, s.width).readers[r := Outside] == t.readers;
  }

  // ---------------------------------------------------------------- reading on from anywhere

  /** A reader inside a read loads the first `i` words again. */
  lemma {:induction false} Reloads(s: State, r: ReaderId, i: nat) returns (events: seq<Event>, got: map<nat, Word>)
    requires s.ReaderOf(r).Reading? && i <= |s.data|
    ensures Run(s, events, s.(readers := s.readers[r := s.ReaderOf(r).(got := got)]))
    ensures Undisturbed(events, r) && forall j :: 0 <= j < i ==> j in got
  {
    hide Run;
    if i == 0 {
      events, got := [], s.ReaderOf(r).got;
      RunNothing(s);
      assert s.readers[r := s.ReaderOf(r)] == s.readers;
    } else {
      events, got := Reloads(s, r, i - 1);
      var m := s.(readers := s.readers[r := s.ReaderOf(r).(got := got)]);
      got := got[i - 1 := s.data[i - 1]];
      var t := s.(readers := s.readers[r := s.ReaderOf(r).(got := got)]);
      assert m.readers[r := t.readers[r]] == t.readers;
      RunSnoc(s, events, m, LoadWord(r, i - 1), t);
      events := events + [LoadWord(r, i - 1)];
    }
  }

  /** With all words loaded and the counter unmoved, the next step is the acceptance. */
  lemma AcceptsNow(s: State, k: nat, r: ReaderId) returns (t: State)
    requires ReachIn(s, k) && s.ReaderOf(r).Reading? && s.ticks == s.ReaderOf(r).start
    requires AllLoaded(s.width, s.ReaderOf(r).got)
    ensures s.history != [] && Next(s, Accept(r, Latest(s)), t)
  {
    ReachableInv(s, k);
    var reader := s.ReaderOf(r);
    assert ReaderOk(s, reader);
    hide ReachIn, Inv, DataOk;
    var result := seq(s.width, i requires 0 <= i < s.width => reader.got[i]);
    t := s.(readers := s.readers[r := Outside]);
    assert Next(s, Accept(r, result), t);
    AcceptedReadIsLatest(s, k, r, result, t);
  }

  lemma LoadsAll(s: State, k: nat, r: ReaderId) returns (events: seq<Event>, m: State)
    requires ReachIn(s, k) && s.ReaderOf(r).Reading?
    ensures Run(s, events, m) && Undisturbed(events, r) && ReachIn(m, k + |events|)
    ensures m.ticks == s.ticks && m.history == s.history && m.width == s.width
    ensures m.ReaderOf(r).Reading? && m.ReaderOf(r).start == s.ReaderOf(r).start
    ensures AllLoaded(m.width, m.ReaderOf(r).got)
  {
    ReachableInv(s, k);
    assert |s.data| == s.width;
    hide ReachIn, Inv, Run, Next;
    var got;
    events, got := Reloads(s, r, s.width);
    m := s.(readers := s.readers[r := s.ReaderOf(r).(got := got)]);
    RunReaches(s, k, events, m);
  }

  /** A read under way whose counter has not moved goes on to be accepted. */
  lemma ReadGoesOn(s: State, k: nat, r: ReaderId) returns (events: seq<Event>, t: State)
    requires ReachIn(s, k) && s.ReaderOf(r).Reading? && s.ticks == s.ReaderOf(r).start
    ensures s.history != [] && Run(s, events, t) && Undisturbed(events, r)
    ensures events != [] && events[|events| - 1] == Accept(r, Latest(s))
  {
    hide ReachIn, Run, Next, AllLoaded;
    var m;
    events, m := LoadsAll(s, k, r);
    t := AcceptsNow(m, k + |events|, r);
    RunSnoc(s, events, m, Accept(r, Latest(m)), t);
    events := events + [Accept(r, Latest(m))];
  }

  /** With no write in progress, reader `r` alone always comes to accept the latest value, from
      wherever it stands, beginning again at most once: if the counter has moved. */
  lemma ReaderRecovers(s: State, k: nat, r: ReaderId) returns (retry: seq<Event>, read: seq<Event>, t: State)
    requires ReachIn(s, k) && s.writer == Resting
    requires s.ReaderOf(r).Reading? ==> s.ticks < s.ReaderOf(r).start + SEQ_MODULUS
    ensures s.history != [] && Run(s, retry + read, t) && Undisturbed(read, r)
    ensures read != [] && read[|read| - 1] == Accept(r, Latest(s))
    ensures retry == if s.ReaderOf(r).Reading? && s.ticks != s.ReaderOf(r).start then [Retry(r)] else []
  {
    hide ReachIn, Run, Next;
    retry := [];
    if s.ReaderOf(r) == Outside {
      read, t := ReadCompletes(s, k, r);
      assert retry + read == read;
    } else if s.ticks == s.ReaderOf(r).start {
      read, t := ReadGoesOn(s, k, r);
      assert retry + read == read;
    } else {
      var m := s.(readers := s.readers[r := Outside]);
      AbandonsRead(s, k, r, m);
      RunReaches(s, k, [Retry(r)], m);
      retry := [Retry(r)];
      read, t := ReadCompletes(m, k + 1, r);
      RunConcat(s, retry, m, read, t);
    }
  }

  lemma AbandonsRead(s: State, k: nat, r: ReaderId, t: State)
    requires ReachIn(s, k) && s.ReaderOf(r).Reading? && t == s.(readers := s.readers[r := Outside])
    requires s.ReaderOf(r).start != s.ticks < s.ReaderOf(r).start + SEQ_MODULUS
    ensures Run(s, [Retry(r)], t)
  {
    ReachableInv(s, k);
    assert ReaderOk(s, s.ReaderOf(r));
    hide ReachIn;
    if s.Seq() == s.ReaderOf(r).mark {
      SameSeqSameTicks(s.ReaderOf(r).start, s.ticks);
    }
    RunNothing(s);
    RunSnoc(s, [], s, Retry(r), t);
    assert [] + [Retry(r)] == [Retry(r)];
  }

  // ---------------------------------------------------------------- writing

  /** Index set of the first `i` words. */
  function Stored(i: nat): (indices: set<nat>)
    ensures forall j :: j in indices <==> 0 <= j < i
  {
    if i == 0 then {} else Stored(i - 1) + {i - 1}
  }

  /** `s` with the writer in the middle of writing `value`. */
  function Writer(s: State, value: seq<Word>, i: nat): State
    requires i <= |value| == |s.data|
  {
    s.(ticks := s.ticks + 1, data := value[..i] + s.data[i..], writer := Writing(value, Stored(i)))
  }

  lemma {:induction false} StoresUpTo(s: State, value: seq<Word>, i: nat) returns (events: seq<Event>)
    requires s.writer == Resting && i <= |value| == |s.data| == s.width
    ensures Run(s, events, Writer(s, value, i)) && WriterOnly(events)
  {
    hide Run, Next, Writer;
    if i == 0 {
      RunNothing(s);
      BeginWriting(s, value);
      RunSnoc(s, [], s, BeginWrite(value), Writer(s, value, 0));
      events := [] + [BeginWrite(value)];
    } else {
      events := StoresUpTo(s, value, i - 1);
      StoreOne(s, value, i - 1);
      RunSnoc(s, events, Writer(s, value, i - 1), StoreWord(i - 1), Writer(s, value, i));
      events := events + [StoreWord(i - 1)];
    }
  }

  lemma BeginWriting(s: State, value: seq<Word>)
    requires s.writer == Resting && |value| == |s.data| == s.width
    ensures Next(s, BeginWrite(value), Writer(s, value, 0))
  {
    assert value[..0] + s.data[0..] == s.data && Stored(0) == {};
  }

  lemma StoreOne(s: State, value: seq<Word>, i: nat)
    requires i < |value| == |s.data| == s.width
    ensures Next(Writer(s, value, i), StoreWord(i), Writer(s, value, i + 1))
  {
    assert Stored(i + 1) == Stored(i) + {i};
    assert (value[..i] + s.data[i..])[i := value[i]] == value[..i + 1] + s.data[i + 1..];
  }

  /** A resting writer's steps alone complete a write of any value. */
  lemma WriteCompletes(s: State, k: nat, value: seq<Word>) returns (events: seq<Event>, t: State)
    requires ReachIn(s, k) && s.writer == Resting && |value| == s.width
    ensures Run(s, events, t) && WriterOnly(events)
    ensures t == s.(ticks := s.ticks + 2, data := value, history := s.history + [value])
  {
    ReachableInv(s, k);
    hide ReachIn, Inv, Run;
    events := StoresUpTo(s, value, s.width);
    t := s.(ticks := s.ticks + 2, data := value, history := s.history + [value]);
    assert value[..s.width] + s.data[s.width..] == value;
    RunSnoc(s, events, Writer(s, value, s.width), EndWrite, t);
    events := events + [EndWrite];
  }

  /** A write in progress can always be finished by the writer alone, wherever it stands. */
  lemma WriteFinishes(s: State, k: nat) returns (events: seq<Event>, t: State)
    requires ReachIn(s, k) && s.writer.Writing?
    ensures Run(s, events, t) && WriterOnly(events)
    ensures t.writer == Resting && t.history == s.history + [s.writer.value] && t.readers == s.readers
  {
    ReachableInv(s, k);
    hide ReachIn, Inv, Run;
    var m;
    events, m := RestStored(s, s.width);
    t := m.(ticks := m.ticks + 1, writer := Resting, history := m.history + [m.writer.value]);
    RunSnoc(s, events, m, EndWrite, t);
    events := events + [EndWrite];
  }

  lemma {:induction false} RestStored(s: State, i: nat) returns (events: seq<Event>, t: State)
    requires s.writer.Writing? && i <= |s.data| == |s.writer.value| == s.width
    ensures Run(s, events, t) && WriterOnly(events)
    ensures t.writer.Writing? && t.writer.value == s.writer.value && |t.data| == |s.data| && t.width == s.width
    ensures t.history == s.history && t.readers == s.readers
    ensures forall j :: 0 <= j < i ==> j in t.writer.stored
  {
    if i == 0 {
      events, t := [], s;
    } else {
      hide Run;
      var m;
      events, m := RestStored(s, i - 1);
      t := m.(data := m.data[i - 1 := m.writer.value[i - 1]],
              writer := m.writer.(stored := m.writer.stored + {i - 1}));
      RunSnoc(s, events, m, StoreWord(i - 1), t);
      events := events + [StoreWord(i - 1)];
    }
  }

  // ---------------------------------------------------------------- a write, then a read

  /** What is written is what is read next. */
  lemma WriteThenRead(s: State, k: nat, value: seq<Word>, r: ReaderId) returns (write: seq<Event>, read: seq<Event>)
    requires ReachIn(s, k) && s.writer == Resting && s.ReaderOf(r) == Outside && |value| == s.width
    ensures WriterOnly(write) && Undisturbed(read, r) && exists t :: Run(s, write + read, t)
    ensures read != [] && read[|read| - 1] == Accept(r, value)
  {
    var m, t;
    hide ReachIn, Run;
    write, m := WriteCompletes(s, k, value);
    RunReaches(s, k, write, m);
    read, t := ReadCompletes(m, k + |write|, r);
    RunConcat(s, write, m, read, t);
  }
}
