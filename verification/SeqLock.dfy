/** `SeqLock`: one writer, any number of readers, interleaved step by step.

    The protected value is a vector of words.  The writer stores its words one at a time
    and in any order, a reader loads them one at a time and in any order, and every step
    of every thread may fall between any two steps of another.  Steps are atomic and
    sequentially consistent.  The counter is 64 bits wide and wraps around. */
module SeqLock {

  type Word = int
  type ReaderId = nat

  const SEQ_MODULUS: nat := 0x1_0000_0000_0000_0000

  datatype Writer = Resting | Writing(value: seq<Word>, stored: set<nat>)

  /** `mark` is the counter value the reader loaded; `start` is the true number of counter
      increments at that moment, kept for the statement only. */
  datatype Reader = Outside | Reading(mark: nat, start: nat, got: map<nat, Word>)

  /** `ticks` is the true number of increments, `Seq` the register a thread can load.
      `history` lists the initial value and the value of every completed write. */
  datatype State = State(width: nat, ticks: nat, data: seq<Word>, writer: Writer,
                         readers: map<ReaderId, Reader>, history: seq<seq<Word>>)
  {
    function Seq(): nat {
      ticks % SEQ_MODULUS
    }

    function ReaderOf(r: ReaderId): Reader {
      if r in readers then readers[r] else Outside
    }
  }

  datatype Event =
    | BeginWrite(value: seq<Word>)        // counter becomes odd
    | StoreWord(index: nat)
    | EndWrite                            // counter becomes even
    | BeginRead(reader: ReaderId)         // load an even counter
    | Spin(reader: ReaderId)              // load an odd counter and try again
    | LoadWord(reader: ReaderId, index: nat)
    | Accept(reader: ReaderId, result: seq<Word>)  // counter unchanged: return the words
    | Retry(reader: ReaderId)             // counter changed: start again

  ghost predicate Init(s: State) {
    && s.ticks == 0
    && |s.data| == s.width
    && s.writer == Resting
    && s.readers == map[]
    && s.history == [s.data]
  }

  predicate AllLoaded(width: nat, got: map<nat, Word>) {
    forall i :: 0 <= i < width ==> i in got
  }

  ghost predicate Next(s: State, e: Event, s': State) {
    match e
    case BeginWrite(value) =>
      && s.writer == Resting && |value| == s.width
      && s' == s.(ticks := s.ticks + 1, writer := Writing(value, {}))
    case StoreWord(i) =>
      && s.writer.Writing? && i < |s.data| && i < |s.writer.value|
      && s' == s.(data := s.data[i := s.writer.value[i]], writer := s.writer.(stored := s.writer.stored + {i}))
    case EndWrite =>
      && s.writer.Writing? && (forall i :: 0 <= i < s.width ==> i in s.writer.stored)
      && s' == s.(ticks := s.ticks + 1, writer := Resting, history := s.history + [s.writer.value])
    case BeginRead(r) =>
      && s.ReaderOf(r) == Outside && s.Seq() % 2 == 0
      && s' == s.(readers := s.readers[r := Reading(s.Seq(), s.ticks, map[])])
    case Spin(r) =>
      s.ReaderOf(r) == Outside && s.Seq() % 2 == 1 && s' == s
    case LoadWord(r, i) =>
      var reader := s.ReaderOf(r);
      && reader.Reading? && i < |s.data|
      && s' == s.(readers := s.readers[r := reader.(got := reader.got[i := s.data[i]])])
    case Accept(r, result) =>
      var reader := s.ReaderOf(r);
      && reader.Reading? && AllLoaded(s.width, reader.got) && s.Seq() == reader.mark
      && |result| == s.width && (forall i :: 0 <= i < s.width ==> result[i] == reader.got[i])
      && s' == s.(readers := s.readers[r := Outside])
    case Retry(r) =>
      var reader := s.ReaderOf(r);
      && reader.Reading? && s.Seq() != reader.mark
      && s' == s.(readers := s.readers[r := Outside])
  }

  /** `s` is reached in `n` steps from some initial state. */
  ghost predicate ReachIn(s: State, n: nat)
    decreases n
  {
    if n == 0 then Init(s) else exists p, e :: ReachIn(p, n - 1) && Next(p, e, s)
  }

  function Latest(s: State): seq<Word>
    requires s.history != []
  {
    s.history[|s.history| - 1]
  }

  // ---------------------------------------------------------------- the invariant

  /** While the counter still stands at its start, a reader holds words of one version only. */
  predicate ReaderOk(s: State, reader: Reader) {
    reader.Reading? ==>
      && reader.mark == reader.start % SEQ_MODULUS
      && reader.start % 2 == 0
      && reader.start <= s.ticks
      && (reader.start == s.ticks ==>
            forall i :: i in reader.got && i < |s.data| ==> reader.got[i] == s.data[i])
  }

  /** Even counter: the data is the latest completed write.  Odd: a mix of the latest
      completed write and the one in progress, word by word. */
  predicate DataOk(s: State) {
    && |s.data| == s.width && s.history != [] && |Latest(s)| == s.width
    && |s.history| == s.ticks / 2 + 1
    && (s.writer.Resting? <==> s.ticks % 2 == 0)
    && (s.writer.Resting? ==> s.data == Latest(s))
    && (s.writer.Writing? ==>
          && |s.writer.value| == s.width
          && forall i :: 0 <= i < s.width && i in s.writer.stored ==> s.data[i] == s.writer.value[i])
  }

  ghost predicate Inv(s: State) {
    DataOk(s) && forall r :: ReaderOk(s, s.ReaderOf(r))
  }

  lemma WriterKeepsInv(s: State, e: Event, s': State)
    requires Inv(s) && Next(s, e, s') && (e.BeginWrite? || e.StoreWord? || e.EndWrite?)
    ensures Inv(s')
  {
    forall r ensures ReaderOk(s', s'.ReaderOf(r)) {
      assert ReaderOk(s, s.ReaderOf(r));
    }
    if e.EndWrite? {
      assert s'.data == s.writer.value;
    }
  }

  lemma ReaderKeepsInv(s: State, e: Event, s': State)
    requires Inv(s) && Next(s, e, s') && !(e.BeginWrite? || e.StoreWord? || e.EndWrite?)
    ensures Inv(s')
  {
    SeqParity(s.ticks);
    assert DataOk(s');
    forall r ensures ReaderOk(s', s'.ReaderOf(r)) {
      assert ReaderOk(s, s.ReaderOf(r));
    }
  }

  lemma SeqParity(ticks: nat)
    ensures ticks % SEQ_MODULUS % 2 == ticks % 2
  {
    var q := ticks / SEQ_MODULUS;
    assert ticks == q * SEQ_MODULUS + ticks % SEQ_MODULUS;
    assert q * SEQ_MODULUS == 2 * (q * 0x8000_0000_0000_0000);
  }

  lemma {:induction false} ReachableInv(s: State, n: nat)
    requires ReachIn(s, n)
    ensures Inv(s)
    decreases n
  {
    if n == 0 {
    } else {
      var p, e :| ReachIn(p, n - 1) && Next(p, e, s);
      ReachableInv(p, n - 1);
      if e.BeginWrite? || e.StoreWord? || e.EndWrite? {
        WriterKeepsInv(p, e, s);
      } else {
        ReaderKeepsInv(p, e, s);
      }
    }
  }

  // ---------------------------------------------------------------- no torn reads

  lemma SameSeqSameTicks(start: nat, ticks: nat)
    requires start <= ticks < start + SEQ_MODULUS
    requires start % SEQ_MODULUS == ticks % SEQ_MODULUS
    ensures start == ticks
  {
    var q, p := ticks / SEQ_MODULUS, start / SEQ_MODULUS;
    assert ticks - start == (q - p) * SEQ_MODULUS;
  }

  /** In every interleaving, a read that is accepted returns all the words of the latest
      completed write (or of the initial value), never a mix, unless the counter went all
      the way round while it was reading. */
  lemma AcceptedReadIsLatest(s: State, n: nat, r: ReaderId, result: seq<Word>, s': State)
    requires ReachIn(s, n) && Next(s, Accept(r, result), s')
    ensures s.history != [] && s.ReaderOf(r).Reading?
    ensures s.ticks < s.ReaderOf(r).start + SEQ_MODULUS ==> result == Latest(s)
  {
    ReachableInv(s, n);
    var reader := s.ReaderOf(r);
    assert ReaderOk(s, reader);
    if s.ticks < reader.start + SEQ_MODULUS {
      SameSeqSameTicks(reader.start, s.ticks);
    }
  }

  /** The lock as an atomic register: completing a write sets it, accepting a read returns
      it, and every other step leaves it alone. */
  ghost predicate RegisterNext(value: seq<Word>, e: Event, value': seq<Word>, written: seq<Word>) {
    match e
    case EndWrite => value' == written
    case Accept(_, result) => result == value && value' == value
    case _ => value' == value
  }

  /** Linearizability: every step of every interleaving is a step of the register, except
      perhaps an accepting step after a full turn of the counter. */
  lemma RefinesRegister(s: State, n: nat, e: Event, s': State)
    requires ReachIn(s, n) && Next(s, e, s')
    ensures s.history != [] && s'.history != []
    ensures (e.Accept? && s.ticks >= s.ReaderOf(e.reader).start + SEQ_MODULUS)
            || RegisterNext(Latest(s), e, Latest(s'), if s.writer.Writing? then s.writer.value else [])
  {
    ReachableInv(s, n);
    if e.Accept? {
      AcceptedReadIsLatest(s, n, e.reader, e.result, s');
    }
  }

  // ---------------------------------------------------------------- what happens when the counter goes round

  const OLD: seq<Word> := [0, 0]
  const NEW: seq<Word> := [1, 1]
  const HALF_WAY: Reader := Reading(0, 0, map[0 := 0])

  /** Two words, a reader (id 7) that has loaded word 0 of the initial value, and then
      `k` complete writes of NEW. */
  function AfterWrites(k: nat): State {
    State(2, 2 * k, if k == 0 then OLD else NEW, Resting, map[7 := HALF_WAY],
          seq(k + 1, i => if i == 0 then OLD else NEW))
  }

  lemma Step(p: State, n: nat, e: Event, s: State)
    requires ReachIn(p, n) && Next(p, e, s)
    ensures ReachIn(s, n + 1)
  {
  }

  lemma HalfWayReachable()
    ensures ReachIn(AfterWrites(0), 2)
  {
    var s := AfterWrites(0);
    var s0 := State(2, 0, OLD, Resting, map[], [OLD]);
    var s1 := s0.(readers := map[7 := Reading(0, 0, map[])]);
    assert Init(s0);
    Step(s0, 0, BeginRead(7), s1);
    assert s.history == [OLD];
    Step(s1, 1, LoadWord(7, 0), s);
  }

  lemma WriteOnce(p: State, n: nat)
    requires ReachIn(p, n) && p.width == 2 && |p.data| == 2 && p.writer == Resting
    ensures ReachIn(p.(ticks := p.ticks + 2, data := NEW, history := p.history + [NEW]), n + 4)
  {
    hide ReachIn;
    var p1 := p.(ticks := p.ticks + 1, writer := Writing(NEW, {}));
    Step(p, n, BeginWrite(NEW), p1);
    var p2 := p1.(data := p1.data[0 := 1], writer := Writing(NEW, {} + {0}));
    Step(p1, n + 1, StoreWord(0), p2);
    var p3 := p2.(data := p2.data[1 := 1], writer := Writing(NEW, {} + {0} + {1}));
    Step(p2, n + 2, StoreWord(1), p3);
    assert p3.data == NEW;
    Step(p3, n + 3, EndWrite, p.(ticks := p.ticks + 2, data := NEW, history := p.history + [NEW]));
  }

  lemma {:induction false} AfterWritesReachable(k: nat)
    ensures ReachIn(AfterWrites(k), 2 + 4 * k)
  {
    hide ReachIn;
    if k == 0 {
      HalfWayReachable();
    } else {
      AfterWritesReachable(k - 1);
      WriteOnce(AfterWrites(k - 1), 2 + 4 * (k - 1));
      assert AfterWrites(k).history == AfterWrites(k - 1).history + [NEW];
    }
  }

  /** After exactly 2^63 writes the counter is back where the reader found it, and the reader
      returns a mix that was never written. */
  lemma WrapAroundTears() returns (s: State, n: nat, s': State)
    ensures ReachIn(s, n) && Next(s, Accept(7, [0, 1]), s')
    ensures s.ticks == s.ReaderOf(7).start + SEQ_MODULUS && |s.history| == 1 + SEQ_MODULUS / 2
    ensures [0, 1] !in s.history
  {
    hide ReachIn;
    var k := SEQ_MODULUS / 2;
    var p := AfterWrites(k);
    AfterWritesReachable(k);
    var loaded := HALF_WAY.(got := HALF_WAY.got[1 := 1]);
    s := p.(readers := p.readers[7 := loaded]);
    Step(p, 2 + 4 * k, LoadWord(7, 1), s);
    n := 2 + 4 * k + 1;
    s' := s.(readers := s.readers[7 := Outside]);
    assert s.Seq() == 0;
    forall i | 0 <= i < |s.history| ensures s.history[i] != [0, 1] {
      assert s.history[i] == OLD || s.history[i] == NEW;
      assert OLD[1] == 0 && NEW[0] == 1 && [0, 1][0] == 0 && [0, 1][1] == 1;
    }
  }

  /** Every read that is accepted within `d` increments of the counter returns the latest value. */
  ghost predicate SafeWithin(d: nat) {
    forall s, n, r, result, s' ::
      ReachIn(s, n) && Next(s, Accept(r, result), s') && s.ticks <= s.ReaderOf(r).start + d
      ==> s.history != [] && result == Latest(s)
  }

  /** The bound is tight: reads are safe if and only if the counter stays short of a full turn. */
  lemma SafeIffNoFullTurn(d: nat)
    ensures SafeWithin(d) <==> d < SEQ_MODULUS
  {
    hide ReachIn;
    if d < SEQ_MODULUS {
      forall s, n, r, result, s'
        | ReachIn(s, n) && Next(s, Accept(r, result), s') && s.ticks <= s.ReaderOf(r).start + d
        ensures s.history != [] && result == Latest(s)
      {
        AcceptedReadIsLatest(s, n, r, result, s');
      }
    } else {
      var s, n, s' := WrapAroundTears();
      ReachableInv(s, n);
      assert Latest(s) in s.history;
    }
  }
}
