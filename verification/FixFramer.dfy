/** `FixParser::feed`: cuts a byte stream into messages by the body length in tag 9. */
module FixFramer {
  import opened Basics
  import opened FixBytes

  /** SOH '9' '=': the start of the body-length field. */
  const BODY_LENGTH_TAG: bytes := [SOH, 57, EQUALS]

  /** Length of the trailer "10=XXX" SOH. */
  const TRAILER: nat := 7

  /** Tag 9 as the loop reads it: not there yet, not a number, or a value with the index of
      the SOH that ends it. */
  datatype BodyLength = Absent | Unreadable | Length(end: nat, value: int32)

  function BodyLengthField(buffer: bytes): BodyLength {
    match Find(buffer, BODY_LENGTH_TAG, 0)
    case None => Absent
    case Some(pos9) =>
      match Find(buffer, [SOH], pos9 + 3)
      case None => Absent
      case Some(soh9) =>
        assert At(buffer, [SOH], soh9);
        match Stoi(buffer[pos9 + 3..soh9])
        case None => Unreadable
        case Some(length) => Length(soh9, length)
  }

  /** What one turn of the loop finds at the front of the buffer.  `Throws` is the
      exception of std::stoi. */
  datatype Frame = Waiting | Throws | Ready(total: nat)

  /** The total is computed in size_t: a body length so negative that the sum would fall
      below 0 wraps to a value no buffer reaches, and the loop waits. */
  function NextFrame(buffer: bytes): (frame: Frame)
    ensures frame.Ready? ==> frame.total <= |buffer|
  {
    match BodyLengthField(buffer)
    case Absent => Waiting
    case Unreadable => Throws
    case Length(soh9, bodyLength) =>
      var total := soh9 + 1 + bodyLength + TRAILER;
      if total < 0 || |buffer| < total then Waiting else Ready(total)
  }

  /** How a call to `feed` ends: normally, with an exception, or never, because a frame
      of length 0 is delivered again and again without consuming a byte. */
  datatype Status = Idle | Thrown | Spinning

  datatype Drained = Drained(messages: seq<bytes>, rest: bytes, status: Status)

  /** The whole loop, as a function of the buffer. */
  function Drain(buffer: bytes): Drained
    decreases |buffer|
  {
    match NextFrame(buffer)
    case Waiting => Drained([], buffer, Idle)
    case Throws => Drained([], buffer, Thrown)
    case Ready(total) =>
      if total == 0 then Drained([], buffer, Spinning)
      else
        var more := Drain(buffer[total..]);
        Drained([buffer[..total]] + more.messages, more.rest, more.status)
  }

  /** One turn of the loop. */
  lemma DrainOnce(buffer: bytes)
    ensures match NextFrame(buffer)
            case Waiting => Drain(buffer) == Drained([], buffer, Idle)
            case Throws => Drain(buffer) == Drained([], buffer, Thrown)
            case Ready(total) =>
              if total == 0 then Drain(buffer) == Drained([], buffer, Spinning)
              else
                var more := Drain(buffer[total..]);
                Drain(buffer) == Drained([buffer[..total]] + more.messages, more.rest, more.status)
  {
    hide NextFrame;
  }

  /** `tag` occurs in `s` at `i` and nowhere before. */
  ghost predicate FirstAt(s: bytes, tag: bytes, i: nat) {
    At(s, tag, i) && forall j: nat :: j < i ==> !At(s, tag, j)
  }

  /** What a turn finds, on the bytes themselves.  If the first SOH "9=" ends `head` and `text`
      runs to the next SOH, the message ends 7 bytes after the body that `text` announces, and is
      cut as soon as it is complete; a text that is no int throws. */
  lemma FrameMeaning(head: bytes, text: bytes, more: bytes)
    requires FirstAt(head + [1, 57, 61] + text + [1] + more, [1, 57, 61], |head|) && SOH !in text
    ensures var s := head + [1, 57, 61] + text + [1] + more;
            NextFrame(s) == if Stoi(text).None? then Throws
                            else
                              var total := |head| + 3 + |text| + 1 + Stoi(text).value + 7;
                              if 0 <= total <= |s| then Ready(total) else Waiting
  {
    hide Stoi, Find;
    var s := head + [1, 57, 61] + text + [1] + more;
    var front := head + [1, 57, 61] + text;
    assert Find(s, BODY_LENGTH_TAG, 0) == Some(|head|) by {
      FirstFound(s, |head|);
    }
    FindByteAfter(front, SOH, more, |head| + 3);
    assert front + [SOH] + more == s;
    assert s[|head| + 3..|front|] == text;
  }

  lemma FirstFound(s: bytes, i: nat)
    requires FirstAt(s, [1, 57, 61], i)
    ensures Find(s, BODY_LENGTH_TAG, 0) == Some(i)
  {
    hide At;
    assert BODY_LENGTH_TAG == [1, 57, 61];
  }

  /** Without a whole tag 9 the loop waits for more bytes. */
  lemma FrameWaits(s: bytes)
    requires (forall j: nat :: !At(s, [1, 57, 61], j))
             || exists i: nat :: FirstAt(s, [1, 57, 61], i) && SOH !in s[i + 3..]
    ensures NextFrame(s) == Waiting
  {
    hide Find;
    assert BODY_LENGTH_TAG == [1, 57, 61];
    if i: nat :| FirstAt(s, [1, 57, 61], i) && SOH !in s[i + 3..] {
      FirstFound(s, i);
      forall j: nat | i + 3 <= j ensures !At(s, [SOH], j) {
        AtByte(s, SOH, j);
        assert j < |s| ==> s[j] == s[i + 3..][j - (i + 3)];
      }
    }
  }

  // ---------------------------------------------------------------- fragmentation

  /** A decision once taken is not changed by bytes that arrive later. */
  lemma FrameExtend(buffer: bytes, more: bytes)
    requires !NextFrame(buffer).Waiting?
    ensures NextFrame(buffer + more) == NextFrame(buffer)
  {
    FindExtend(buffer, more, BODY_LENGTH_TAG, 0);
    var eq9 := Find(buffer, BODY_LENGTH_TAG, 0).value + 3;
    FindExtend(buffer, more, [SOH], eq9);
    var soh9 := Find(buffer, [SOH], eq9).value;
    assert At(buffer, [SOH], soh9);
    assert (buffer + more)[eq9..soh9] == buffer[eq9..soh9];
  }

  /** Fragmentation independence: feeding `a` and then `b` delivers the same messages and
      leaves the same buffer and status as feeding `a + b` at once. */
  lemma {:induction false} DrainSplit(a: bytes, b: bytes)
    ensures var first := Drain(a);
            var second := Drain(first.rest + b);
            Drain(a + b) == Drained(first.messages + second.messages, second.rest, second.status)
    decreases |a|
  {
    hide NextFrame;
    var frame := NextFrame(a);
    if frame.Waiting? {
      var second := Drain(a + b);
      assert [] + second.messages == second.messages;
    } else {
      FrameExtend(a, b);
      if frame.Throws? || frame.total == 0 {
      } else {
        var t := frame.total;
        assert (a + b)[..t] == a[..t] && (a + b)[t..] == a[t..] + b;
        DrainSplit(a[t..], b);
        var first := Drain(a[t..]);
        var second := Drain(first.rest + b);
        assert [a[..t]] + (first.messages + second.messages) == ([a[..t]] + first.messages) + second.messages;
      }
    }
  }

  /** A stream delivered in chunks, one `feed` per chunk. */
  function FeedAll(buffer: bytes, chunks: seq<bytes>): Drained
    decreases |chunks|
  {
    if chunks == [] then Drain(buffer)
    else
      var now := Drain(buffer + chunks[0]);
      var later := FeedAll(now.rest, chunks[1..]);
      Drained(now.messages + later.messages, later.rest, later.status)
  }

  /** Any chunking of a stream is equivalent to the whole stream at once. */
  lemma {:induction false} ChunkingIrrelevant(buffer: bytes, chunks: seq<bytes>)
    ensures FeedAll(buffer, chunks) == Drain(buffer + Flatten(chunks))
    decreases |chunks|
  {
    hide Drain;
    if chunks == [] {
      assert buffer + [] == buffer;
    } else {
      var now := Drain(buffer + chunks[0]);
      ChunkingIrrelevant(now.rest, chunks[1..]);
      DrainSplit(buffer + chunks[0], Flatten(chunks[1..]));
      assert buffer + Flatten(chunks) == (buffer + chunks[0]) + Flatten(chunks[1..]);
    }
  }

  /** No byte is lost, duplicated or reordered: the messages, then what is still buffered,
      are the bytes fed; and nothing more can be delivered from what is buffered. */
  lemma {:induction false} DrainConserves(buffer: bytes)
    ensures var d := Drain(buffer);
            && Flatten(d.messages) + d.rest == buffer
            && (forall i :: 0 <= i < |d.messages| ==> d.messages[i] != [])
            && Drain(d.rest) == Drained([], d.rest, d.status)
    decreases |buffer|
  {
    hide NextFrame;
    var frame := NextFrame(buffer);
    if frame.Ready? && frame.total > 0 {
      var more := Drain(buffer[frame.total..]);
      DrainConserves(buffer[frame.total..]);
      assert Flatten([buffer[..frame.total]] + more.messages) == buffer[..frame.total] + Flatten(more.messages) by {
        assert ([buffer[..frame.total]] + more.messages)[1..] == more.messages;
      }
    }
  }

  // ---------------------------------------------------------------- the parser object

  class FixParser {
    var buffer: bytes
    var msgs: nat
    var bytesConsumed: nat

    ghost var fed: bytes             // everything fed since the last reset
    ghost var delivered: seq<bytes>  // everything handed to the callback since the last reset

    /** However the stream was cut into chunks, the parser is where draining the whole
        stream at once would have left it. */
    ghost predicate Valid()
      reads this
    {
      Drain(fed).messages == delivered && Drain(fed).rest == buffer
    }

    constructor ()
      ensures Valid() && fed == [] && delivered == []
      ensures buffer == [] && msgs == 0 && bytesConsumed == 0
    {
      buffer, msgs, bytesConsumed := [], 0, 0;
      fed, delivered := [], [];
    }

    /** The loop of `feed`: cuts complete messages off the front of the buffer. */
    method CutMessages() returns (out: seq<bytes>, status: Status)
      modifies `buffer, `msgs, `bytesConsumed
      ensures Drained(out, buffer, status) == Drain(old(buffer))
      ensures msgs == old(msgs) + |out|
      ensures bytesConsumed == old(bytesConsumed) + |Flatten(out)|
    {
      hide NextFrame, Drain;
      out := [];
      while true
        invariant var all, now := Drain(old(buffer)), Drain(buffer);
                  && all.messages == out + now.messages
                  && all.rest == now.rest
                  && all.status == now.status
        invariant msgs == old(msgs) + |out|
        invariant bytesConsumed == old(bytesConsumed) + |Flatten(out)|
        decreases |buffer|
      {
        DrainOnce(buffer);
        match NextFrame(buffer) {
          case Waiting => return out, Idle;
          case Throws => return out, Thrown;
          case Ready(total) =>
            if total == 0 {
              return out, Spinning;
            }
            FlattenConcat(out, [buffer[..total]]);
            out := out + [buffer[..total]];
            msgs, bytesConsumed := msgs + 1, bytesConsumed + total;
            buffer := buffer[total..];
        }
      }
    }

    /** Feeds bytes from the stream; `out` lists the messages handed to the callback. */
    method Feed(data: bytes) returns (out: seq<bytes>, status: Status)
      requires Valid()
      modifies this
      ensures Valid() && fed == old(fed) + data && delivered == old(delivered) + out
      ensures Drained(out, buffer, status) == Drain(old(buffer) + data)
      ensures Flatten(delivered) + buffer == fed
      ensures msgs == old(msgs) + |out|
      ensures bytesConsumed == old(bytesConsumed) + |Flatten(out)|
    {
      hide Drain;
      DrainSplit(fed, data);
      DrainConserves(fed + data);
      buffer := buffer + data;
      out, status := CutMessages();
      fed, delivered := fed + data, delivered + out;
    }

    /** Discards a partial message; the counters keep their values. */
    method Reset()
      modifies this
      ensures Valid() && fed == [] && delivered == [] && buffer == []
      ensures msgs == old(msgs) && bytesConsumed == old(bytesConsumed)
    {
      buffer := [];
      fed, delivered := [], [];
    }
  }

  // ---------------------------------------------------------------- where the loop fails to advance

  /** Tag 9 holds exactly minus the length of what surrounds the body. */
  predicate LengthCancels(buffer: bytes) {
    var field := BodyLengthField(buffer);
    field.Length? && field.value == -(field.end + 1 + TRAILER)
  }

  /** A whole number of frames ends at `k`: where a turn of the loop on `s` can start. */
  ghost predicate Boundary(s: bytes, k: nat)
    requires k <= |s|
  {
    k == 0 || exists j :: 0 <= j < k && Boundary(s, j) && NextFrame(s[j..]) == Ready(k - j)
  }

  /** Boundaries beyond the first frame are boundaries of what follows it, and back. */
  lemma {:induction false} BoundaryAfterFirst(s: bytes, k: nat)
    requires 0 < k <= |s| && Boundary(s, k)
    ensures var frame := NextFrame(s);
            frame.Ready? && 0 < frame.total <= k && Boundary(s[frame.total..], k - frame.total)
    decreases k
  {
    hide NextFrame;
    var j :| 0 <= j < k && Boundary(s, j) && NextFrame(s[j..]) == Ready(k - j);
    if j == 0 {
      assert s[0..] == s;
    } else {
      BoundaryAfterFirst(s, j);
      var t := NextFrame(s).total;
      assert s[t..][j - t..] == s[j..];
      assert Boundary(s[t..], k - t);
    }
  }

  lemma {:induction false} BoundaryBeforeFirst(s: bytes, t: nat, k: nat)
    requires NextFrame(s) == Ready(t) && 0 < t <= |s| && k <= |s| - t && Boundary(s[t..], k)
    ensures Boundary(s, t + k)
    decreases k
  {
    hide NextFrame;
    if k == 0 {
      assert s[0..] == s;
      assert Boundary(s, 0) && NextFrame(s[0..]) == Ready(t - 0);
    } else {
      var j :| 0 <= j < k && Boundary(s[t..], j) && NextFrame(s[t..][j..]) == Ready(k - j);
      BoundaryBeforeFirst(s, t, j);
      assert s[t..][j..] == s[t + j..];
      assert Boundary(s, t + j) && NextFrame(s[t + j..]) == Ready(t + k - (t + j));
    }
  }

  /** A turn consumes nothing exactly when the length cancels. */
  lemma StallIsCancelledLength(buffer: bytes)
    ensures NextFrame(buffer) == Ready(0) <==> LengthCancels(buffer)
  {
  }

  /** `feed` fails to return if and only if at some frame boundary of the stream tag 9 holds
      minus the length of what surrounds the body. */
  lemma {:induction false} SpinsIffLengthCancels(s: bytes)
    ensures Drain(s).status == Spinning <==> exists k :: 0 <= k <= |s| && Boundary(s, k) && LengthCancels(s[k..])
    decreases |s|
  {
    hide NextFrame, LengthCancels;
    StallIsCancelledLength(s);
    DrainOnce(s);
    hide Drain;
    assert s[0..] == s;
    var frame := NextFrame(s);
    if frame.Ready? && frame.total > 0 {
      var t := frame.total;
      SpinsIffLengthCancels(s[t..]);
      if k :| 0 <= k <= |s[t..]| && Boundary(s[t..], k) && LengthCancels(s[t..][k..]) {
        BoundaryBeforeFirst(s, t, k);
        assert s[t..][k..] == s[t + k..];
      }
      if k :| 0 <= k <= |s| && Boundary(s, k) && LengthCancels(s[k..]) {
        if k > 0 {
          BoundaryAfterFirst(s, k);
          assert s[t..][k - t..] == s[k..];
        }
      }
    } else {
      if k :| 0 <= k <= |s| && Boundary(s, k) && LengthCancels(s[k..]) {
        if k > 0 {
          BoundaryAfterFirst(s, k);
        }
      }
      assert LengthCancels(s) ==> Boundary(s, 0) && LengthCancels(s[0..]);
    }
  }

  /** A tag 9 starts at `pos9` and the first SOH after it is at `end`. */
  predicate LengthAt(s: bytes, pos9: nat, end: nat) {
    && At(s, BODY_LENGTH_TAG, pos9)
    && pos9 + 3 <= end < |s| && s[end] == SOH
    && forall j :: pos9 + 3 <= j < end ==> s[j] != SOH
  }

  /** No tag 9 of the stream has a negative value. */
  ghost predicate NoNegativeLength(s: bytes) {
    forall pos9: nat, end: nat :: LengthAt(s, pos9, end) ==> NotNegative(s[pos9 + 3..end])
  }

  predicate NotNegative(text: bytes) {
    Stoi(text).Some? ==> Stoi(text).value >= 0
  }

  /** A stream without a negative tag 9 never makes `feed` spin, however it is cut up. */
  lemma NoNegativeNeverSpins(s: bytes, chunks: seq<bytes>)
    requires NoNegativeLength(s) && Flatten(chunks) == s
    ensures Drain(s).status != Spinning && FeedAll([], chunks).status != Spinning
  {
    hide Drain, FeedAll, Boundary;
    SpinsIffLengthCancels(s);
    ChunkingIrrelevant([], chunks);
    assert [] + s == s;
    if k :| 0 <= k <= |s| && Boundary(s, k) && LengthCancels(s[k..]) {
      CancelledIsNegative(s, k);
    }
  }

  lemma CancelledIsNegative(s: bytes, k: nat)
    requires k <= |s| && LengthCancels(s[k..])
    ensures !NoNegativeLength(s)
  {
    hide BodyLengthField, Stoi, At;
    var field := BodyLengthField(s[k..]);
    var pos9 := LengthFound(s[k..]);
    LengthShift(s, k, pos9, field.end);
    assert !NotNegative(s[k + pos9 + 3..k + field.end]);
  }

  lemma LengthFound(s: bytes) returns (pos9: nat)
    requires BodyLengthField(s).Length?
    ensures var field := BodyLengthField(s);
            LengthAt(s, pos9, field.end) && Stoi(s[pos9 + 3..field.end]) == Some(field.value)
  {
    hide Stoi;
    pos9 := Find(s, BODY_LENGTH_TAG, 0).value;
    var end := Find(s, [SOH], pos9 + 3).value;
    AtByte(s, SOH, end);
    forall j | pos9 + 3 <= j < end ensures s[j] != SOH {
      AtByte(s, SOH, j);
    }
  }

  lemma LengthShift(s: bytes, k: nat, pos9: nat, end: nat)
    requires k <= |s| && LengthAt(s[k..], pos9, end)
    ensures LengthAt(s, k + pos9, k + end) && s[k + pos9 + 3..k + end] == s[k..][pos9 + 3..end]
  {
    var tail := s[k..];
    assert s[k + pos9..k + pos9 + 3] == tail[pos9..pos9 + 3];
    assert forall j :: k + pos9 + 3 <= j < k + end ==> s[j] == tail[j - k];
  }

  /** A concrete stall: SOH "9=-14" SOH. */
  lemma StallExample()
    ensures Drain([SOH, 57, EQUALS, MINUS, 49, 52, SOH]).status == Spinning
  {
    var s: bytes := [SOH, 57, EQUALS, MINUS, 49, 52, SOH];
    assert s[0..3] == BODY_LENGTH_TAG;
    FindByteAfter(s[..6], SOH, [], 3);
    assert s[..6] + [SOH] + [] == s;
    assert s[3..6] == [MINUS] + [49, 52];
    assert DigitText(14) == [49, 52] by {
      assert DigitText(1) == [49];
    }
    StoiOfIntText(-14);
  }
}
