/** FIX messages: the printer `build_fix_message`, the checksum, and the framing round trip. */
module FixMessages {
  import opened Basics
  import opened FixBytes
  import opened FixFramer

  datatype Field = Field(tag: int32, value: bytes)

  /** "8=FIX.4.2" */
  const BEGIN_STRING: bytes := [56, 61, 70, 73, 88, 46, 52, 46, 50]
  const FIX_4_2: bytes := [70, 73, 88, 46, 52, 46, 50]

  /** "10=" */
  const CHECKSUM_TAG: bytes := [49, 48, EQUALS]

  // ---------------------------------------------------------------- checksum

  function Sum(msg: bytes): nat {
    if msg == [] then 0 else Sum(msg[..|msg| - 1]) + msg[|msg| - 1]
  }

  function Checksum(msg: bytes): byte {
    Sum(msg) % 256
  }

  /** `Sum` adds the bytes up, starting at 0. */
  lemma SumOfOne(b: byte)
    ensures Sum([]) == 0 && Sum([b]) == b
  {
    assert [b][..0] == [];
  }

  lemma {:induction false} SumConcat(a: bytes, b: bytes)
    ensures Sum(a + b) == Sum(a) + Sum(b)
  {
    if b == [] {
      assert a + b == a;
    } else {
      var n := |b| - 1;
      assert (a + b)[..|a| + n] == a + b[..n];
      SumConcat(a, b[..n]);
    }
  }

  lemma SumOfFive(a: byte, b: byte, c: byte, d: byte, e: byte)
    ensures Sum([a, b, c, d, e]) == a + b + c + d + e
  {
    SumOfOne(a);
    SumOfOne(b);
    SumOfOne(c);
    SumOfOne(d);
    SumOfOne(e);
    SumConcat([a], [b]);
    SumConcat([a] + [b], [c]);
    SumConcat([a] + [b] + [c], [d]);
    SumConcat([a] + [b] + [c] + [d], [e]);
    assert [a] + [b] + [c] + [d] + [e] == [a, b, c, d, e];
  }

  /** "8=FIX.4.2" SOH "35=D" SOH adds up to 777, so its checksum is 9; nothing adds up to 0. */
  lemma KnownChecksums()
    ensures Sum([56, 61, 70, 73, 88, 46, 52, 46, 50, 1, 51, 53, 61, 68, 1]) == 777
    ensures Checksum([56, 61, 70, 73, 88, 46, 52, 46, 50, 1, 51, 53, 61, 68, 1]) == 9
    ensures Checksum([]) == 0
  {
    SumOfFive(56, 61, 70, 73, 88);
    SumOfFive(46, 52, 46, 50, 1);
    SumOfFive(51, 53, 61, 68, 1);
    var x: bytes, y: bytes, z: bytes := [56, 61, 70, 73, 88], [46, 52, 46, 50, 1], [51, 53, 61, 68, 1];
    SumConcat(x, y);
    SumConcat(x + y, z);
    assert x + y + z == [56, 61, 70, 73, 88, 46, 52, 46, 50, 1, 51, 53, 61, 68, 1];
  }

  /** Adding in 32 bits and adding without bound agree in the low byte. */
  lemma WrapKeepsLowByte(sum: nat, exact: nat, c: byte)
    requires sum % 256 == exact % 256
    ensures (sum + c) % 0x1_0000_0000 % 256 == (exact + c) % 256
  {
    var q := (sum + c) / 0x1_0000_0000;
    var r := (sum + c) % 0x1_0000_0000;
    assert sum + c == q * 0x100_0000 * 256 + r;
    LowByte(r, q * 0x100_0000);
    LowByte(sum % 256 + c, sum / 256);
    LowByte(exact % 256 + c, exact / 256);
  }

  lemma LowByte(x: nat, k: nat)
    ensures (k * 256 + x) % 256 == x % 256
  {
  }

  /** The loop adds up in 32 bits; since 256 divides 2^32 the wrap-around is harmless. */
  method FixChecksum(msg: bytes) returns (sum8: byte)
    ensures sum8 == Checksum(msg)
  {
    var sum: nat := 0;
    for i := 0 to |msg|
      invariant sum % 256 == Sum(msg[..i]) % 256
    {
      assert msg[..i + 1][..i] == msg[..i];
      WrapKeepsLowByte(sum, Sum(msg[..i]), msg[i]);
      sum := (sum + msg[i]) % 0x1_0000_0000;
    }
    assert msg[..|msg|] == msg;
    sum8 := sum % 256;
  }

  // ---------------------------------------------------------------- printing

  /** Tags the printer generates itself and skips in its input. */
  predicate Generated(tag: int) {
    tag == 8 || tag == 9 || tag == 10
  }

  function Token(f: Field): bytes {
    IntText(f.tag) + [EQUALS] + f.value
  }

  function Kept(fields: seq<Field>): seq<Field> {
    if fields == [] then []
    else if Generated(fields[|fields| - 1].tag) then Kept(fields[..|fields| - 1])
    else Kept(fields[..|fields| - 1]) + [fields[|fields| - 1]]
  }

  lemma {:induction false} KeptConcat(a: seq<Field>, b: seq<Field>)
    ensures Kept(a + b) == Kept(a) + Kept(b)
  {
    if b == [] {
      assert a + b == a;
    } else {
      var n := |b| - 1;
      assert (a + b)[..|a| + n] == a + b[..n];
      KeptConcat(a, b[..n]);
    }
  }

  /** Of a field list exactly the fields with tags 8, 9 and 10 are skipped. */
  lemma KeptSplit(a: seq<Field>, f: Field, b: seq<Field>)
    ensures Kept(a + [f] + b) == Kept(a) + (if f.tag in {8, 9, 10} then [] else [f]) + Kept(b)
  {
    KeptConcat(a + [f], b);
    KeptConcat(a, [f]);
    assert [f][..0] == [];
  }

  lemma {:induction false} KeptAll(fields: seq<Field>)
    requires forall i :: 0 <= i < |fields| ==> fields[i].tag !in {8, 9, 10}
    ensures Kept(fields) == fields
  {
    if fields == [] {
    } else {
      KeptAll(fields[..|fields| - 1]);
    }
  }

  /** Each token with its terminating SOH. */
  function Text(fields: seq<Field>): bytes {
    if fields == [] then [] else Text(fields[..|fields| - 1]) + Token(fields[|fields| - 1]) + [SOH]
  }

  function Body(fields: seq<Field>): bytes {
    Text(Kept(fields))
  }

  /** Everything before the checksum field. */
  function Prefix(fields: seq<Field>): bytes {
    BEGIN_STRING + BODY_LENGTH_TAG + DigitText(|Body(fields)|) + [SOH] + Body(fields)
  }

  /** printf("%03d") of a byte. */
  function ThreeDigits(c: byte): (s: bytes)
    ensures |s| == 3 && forall i :: 0 <= i < 3 ==> IsDigit(s[i])
  {
    [ZERO + c / 100, ZERO + c / 10 % 10, ZERO + c % 10]
  }

  function Trailer(c: byte): bytes {
    CHECKSUM_TAG + ThreeDigits(c) + [SOH]
  }

  function Build(fields: seq<Field>): bytes {
    Prefix(fields) + Trailer(Checksum(Prefix(fields)))
  }

  lemma BodySnoc(fields: seq<Field>, i: nat)
    requires i < |fields|
    ensures Body(fields[..i + 1])
            == Body(fields[..i]) + if Generated(fields[i].tag) then [] else Token(fields[i]) + [SOH]
  {
    hide Token, Generated;
    assert fields[..i + 1][..i] == fields[..i];
    if !Generated(fields[i].tag) {
      var kept := Kept(fields[..i]) + [fields[i]];
      assert kept[..|kept| - 1] == Kept(fields[..i]);
    }
  }

  method BuildFixMessage(fields: seq<Field>) returns (msg: bytes)
    ensures msg == Build(fields)
  {
    hide Body, IntText, DigitText, Checksum, ThreeDigits;
    var body: bytes := [];
    assert Body([]) == [] by {
      EmptyBody();
    }
    for i := 0 to |fields|
      invariant body == Body(fields[..i])
    {
      BodySnoc(fields, i);
      var f := fields[i];
      if !Generated(f.tag) {
        body := body + (IntText(f.tag) + [EQUALS] + f.value + [SOH]);
      }
    }
    assert fields[..|fields|] == fields;
    msg := BEGIN_STRING + [SOH] + [57, EQUALS] + DigitText(|body|) + [SOH] + body;
    assert BEGIN_STRING + [SOH] + [57, EQUALS] == BEGIN_STRING + BODY_LENGTH_TAG;
    assert msg == Prefix(fields);
    var cksum := FixChecksum(msg);
    msg := msg + (CHECKSUM_TAG + ThreeDigits(cksum) + [SOH]);
  }

  lemma EmptyBody()
    ensures Body([]) == []
  {
  }

  // ---------------------------------------------------------------- framing round trip

  lemma TagFoundAt9(s: bytes)
    requires |s| >= 12 && s[..12] == BEGIN_STRING + BODY_LENGTH_TAG
    ensures Find(s, BODY_LENGTH_TAG, 0) == Some(9)
  {
    assert s[9..12] == s[..12][9..] == BODY_LENGTH_TAG;
    assert At(s, BODY_LENGTH_TAG, 9);
    forall j: nat | j < 9 ensures !At(s, BODY_LENGTH_TAG, j) {
      assert s[j] == s[..12][j] == BEGIN_STRING[j];
      NotAt(s, BODY_LENGTH_TAG, j);
    }
  }

  /** A stream that starts like a message whose tag 9 says `len`. */
  lemma FrameOfLength(len: nat, tail: bytes)
    ensures var n := DigitText(len);
            var s := BEGIN_STRING + BODY_LENGTH_TAG + n + [SOH] + tail;
            NextFrame(s) == if len > INT_MAX then Throws
                            else if |tail| < len + TRAILER then Waiting
                            else Ready(13 + |n| + len + TRAILER)
  {
    hide Find, Stoi;
    var n := DigitText(len);
    var head := BEGIN_STRING + BODY_LENGTH_TAG;
    var s := head + n + [SOH] + tail;
    TagFoundAt9(s);
    FindByteAfter(head + n, SOH, tail, 12);
    assert s[12..12 + |n|] == n;
    StoiOfDigits(n);
    DigitTextValue(len);
  }

  /** The loop cuts a printed message exactly where it ends, whatever bytes the values hold
      and whatever follows, as long as the body length fits an int; beyond that it throws. */
  lemma FrameOfBuild(fields: seq<Field>, more: bytes)
    ensures NextFrame(Build(fields) + more)
            == if |Body(fields)| <= INT_MAX then Ready(|Build(fields)|) else Throws
  {
    hide NextFrame, Body, Checksum;
    var tail := Body(fields) + Trailer(Checksum(Prefix(fields))) + more;
    FrameOfLength(|Body(fields)|, tail);
    assert Build(fields) + more
           == BEGIN_STRING + BODY_LENGTH_TAG + DigitText(|Body(fields)|) + [SOH] + tail;
  }

  function BuildAll(messages: seq<seq<Field>>): seq<bytes> {
    seq(|messages|, i requires 0 <= i < |messages| => Build(messages[i]))
  }

  /** Feeding any list of printed messages delivers exactly those messages and leaves
      nothing buffered if and only if every body length fits an int. */
  lemma {:induction false} FramingRoundTrip(messages: seq<seq<Field>>)
    ensures Drain(Flatten(BuildAll(messages))) == Drained(BuildAll(messages), [], Idle)
            <==> forall i :: 0 <= i < |messages| ==> |Body(messages[i])| <= INT_MAX
  {
    hide NextFrame, Build, Body;
    var all := BuildAll(messages);
    if messages == [] {
      EmptyWaits();
      assert all == [];
      DrainOnce([]);
    } else {
      var first, later := messages[0], messages[1..];
      assert all[1..] == BuildAll(later);
      var stream := Flatten(all);
      assert stream == Build(first) + Flatten(BuildAll(later));
      FrameOfBuild(first, Flatten(BuildAll(later)));
      FramingRoundTrip(later);
      DrainOnce(stream);
      if |Body(first)| <= INT_MAX {
        BuildNotEmpty(first);
        assert stream[|Build(first)|..] == Flatten(BuildAll(later));
        assert stream[..|Build(first)|] == Build(first);
        var more := Drain(Flatten(BuildAll(later)));
        assert Drain(stream).messages == [Build(first)] + more.messages;
        assert all == [Build(first)] + BuildAll(later);
        assert ([Build(first)] + more.messages)[1..] == more.messages;
        assert forall i :: 0 <= i < |later| ==> later[i] == messages[i + 1];
      }
    }
  }

  lemma EmptyWaits()
    ensures NextFrame([]) == Waiting
  {
  }

  lemma BuildNotEmpty(fields: seq<Field>)
    ensures |Build(fields)| > 0
  {
  }

  /** The same for any fragmentation of the stream. */
  lemma FragmentedRoundTrip(messages: seq<seq<Field>>, chunks: seq<bytes>)
    requires Flatten(chunks) == Flatten(BuildAll(messages))
    ensures FeedAll([], chunks) == Drained(BuildAll(messages), [], Idle)
            <==> forall i :: 0 <= i < |messages| ==> |Body(messages[i])| <= INT_MAX
  {
    hide Drain, FeedAll, Build, Body, BuildAll;
    FramingRoundTrip(messages);
    ChunkingIrrelevant([], chunks);
    assert [] + Flatten(chunks) == Flatten(chunks);
  }
}
