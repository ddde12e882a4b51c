/** `parse_fields`: tokens, tags, and the checksum test; the print/parse round trip. */
module FixParsing {
  import opened Basics
  import opened FixBytes
  import opened FixFramer
  import opened FixMessages

  /** "tag=value": the tag is what precedes the first '='. */
  function ParseToken(token: bytes): Option<Field> {
    match Find(token, [EQUALS], 0)
    case None => None
    case Some(eq) =>
      assert At(token, [EQUALS], eq);
      match Stoi(token[..eq])
      case None => None
      case Some(tag) => Some(Field(tag, token[eq + 1..]))
  }

  /** Index of the SOH that ends the first token, or the end of the text. */
  function TokenEnd(raw: bytes): (end: nat)
    ensures end <= |raw|
  {
    match Find(raw, [SOH], 0)
    case None => |raw|
    case Some(i) => assert At(raw, [SOH], i); i
  }

  function AfterToken(raw: bytes): (rest: bytes)
    requires raw != []
    ensures |rest| < |raw|
  {
    var end := TokenEnd(raw);
    if end == |raw| then [] else raw[end + 1..]
  }

  function Prepend(fields: seq<Field>, more: Option<seq<Field>>): Option<seq<Field>> {
    if more.None? then None else Some(fields + more.value)
  }

  /** All tokens of a text split at SOH; None if some token is malformed. */
  function Tokens(raw: bytes): Option<seq<Field>>
    decreases |raw|
  {
    if raw == [] then Some([])
    else
      match ParseToken(raw[..TokenEnd(raw)])
      case None => None
      case Some(f) => Prepend([f], Tokens(AfterToken(raw)))
  }

  /** The value of the first field with this tag. */
  function Lookup(fields: seq<Field>, tag: int32): Option<bytes> {
    if fields == [] then None
    else if fields[0].tag == tag then Some(fields[0].value)
    else Lookup(fields[1..], tag)
  }

  /** What the checksum covers: everything before the last "10=". */
  function Covered(raw: bytes): bytes {
    match RFind(raw, CHECKSUM_TAG, |raw|)
    case None => raw
    case Some(i) => raw[..i]
  }

  predicate ChecksumOk(raw: bytes, fields: seq<Field>) {
    var value := Lookup(fields, 10);
    value.Some? && Stoi(value.value).Some? && Stoi(value.value).value == Checksum(Covered(raw))
  }

  /** The fields of a message, or nothing if it is malformed or its checksum is wrong. */
  function ParseFields(raw: bytes): seq<Field> {
    var tokens := Tokens(raw);
    if tokens.Some? && ChecksumOk(raw, tokens.value) then tokens.value else []
  }

  method ParseFixFields(raw: bytes) returns (fields: seq<Field>)
    ensures fields == ParseFields(raw)
  {
    hide ParseToken, Stoi, Checksum, Covered;
    fields := [];
    var rest := raw;
    assert Tokens(raw).Some? ==> [] + Tokens(raw).value == Tokens(raw).value;
    while rest != []
      invariant Tokens(raw) == Prepend(fields, Tokens(rest))
      decreases |rest|
    {
      var f := ParseToken(rest[..TokenEnd(rest)]);
      if f.None? {
        return [];
      }
      ghost var later := Tokens(AfterToken(rest));
      assert later.Some? ==> fields + ([f.value] + later.value) == (fields + [f.value]) + later.value;
      fields := fields + [f.value];
      rest := AfterToken(rest);
    }
    assert fields + [] == fields;
    var value := Lookup(fields, 10);
    if value.None? || Stoi(value.value).None? {
      return [];
    }
    var sum := FixChecksum(Covered(raw));
    if Stoi(value.value).value != sum {
      return [];
    }
  }

  /** The value of the first field with this tag, or an empty string if there is none. */
  method FindField(fields: seq<Field>, tag: int32) returns (value: bytes)
    ensures (forall i :: 0 <= i < |fields| ==> fields[i].tag != tag) ==> value == []
    ensures forall i :: 0 <= i < |fields| && fields[i].tag == tag && (forall j :: 0 <= j < i ==> fields[j].tag != tag)
                        ==> value == fields[i].value
    ensures value == if Lookup(fields, tag).Some? then Lookup(fields, tag).value else []
  {
    for i := 0 to |fields|
      invariant forall j :: 0 <= j < i ==> fields[j].tag != tag
      invariant Lookup(fields, tag) == Lookup(fields[i..], tag)
    {
      if fields[i].tag == tag {
        return fields[i].value;
      }
    }
    return [];
  }

  // ---------------------------------------------------------------- round trip

  predicate Plain(value: bytes) {
    SOH !in value
  }

  lemma TokenRoundTrip(f: Field)
    ensures ParseToken(Token(f)) == Some(f)
  {
    hide Stoi;
    var text := IntText(f.tag);
    IntTextPlain(f.tag);
    FindByteAfter(text, EQUALS, f.value, 0);
    assert Token(f)[..|text|] == text && Token(f)[|text| + 1..] == f.value;
    StoiOfIntText(f.tag);
  }

  lemma FirstToken(f: Field, more: bytes)
    requires Plain(f.value)
    ensures Tokens(Token(f) + [SOH] + more) == Prepend([f], Tokens(more))
  {
    hide ParseToken;
    var token := Token(f);
    var raw := token + [SOH] + more;
    IntTextPlain(f.tag);
    FindByteAfter(token, SOH, more, 0);
    assert raw[..|token|] == token && raw[|token| + 1..] == more;
    TokenRoundTrip(f);
  }

  /** Splitting undoes joining, as long as no value holds a SOH. */
  lemma {:induction false} TokensOfText(fields: seq<Field>, more: bytes)
    requires forall i :: 0 <= i < |fields| ==> Plain(fields[i].value)
    ensures Tokens(Text(fields) + more) == Prepend(fields, Tokens(more))
  {
    hide Token, Tokens;
    if fields == [] {
      assert Text(fields) + more == more;
      assert Tokens(more).Some? ==> [] + Tokens(more).value == Tokens(more).value;
    } else {
      var n := |fields| - 1;
      var last := fields[n];
      var tail := Token(last) + [SOH] + more;
      assert Text(fields) + more == Text(fields[..n]) + tail;
      TokensOfText(fields[..n], tail);
      FirstToken(last, more);
      assert fields == fields[..n] + [last];
      if Tokens(more).Some? {
        assert fields[..n] + ([last] + Tokens(more).value) == fields + Tokens(more).value;
      }
    }
  }

  /** What a printed message is read back as. */
  function Expected(fields: seq<Field>): seq<Field> {
    [Field(8, FIX_4_2), Field(9, DigitText(|Body(fields)|))]
    + Kept(fields)
    + [Field(10, ThreeDigits(Checksum(Prefix(fields))))]
  }

  lemma {:induction false} KeptOk(fields: seq<Field>)
    ensures forall i :: 0 <= i < |Kept(fields)| ==> !Generated(Kept(fields)[i].tag)
  {
    if fields == [] {
    } else {
      KeptOk(fields[..|fields| - 1]);
    }
  }

  lemma TextOne(f: Field)
    ensures Text([f]) == Token(f) + [SOH]
  {
    assert [f][..0] == [];
    assert Text([f]) == Text([]) + Token(f) + [SOH];
    assert Text([]) + Token(f) == Token(f);
  }

  lemma {:induction false} TextConcat(a: seq<Field>, b: seq<Field>)
    ensures Text(a + b) == Text(a) + Text(b)
  {
    hide Token;
    if b == [] {
      assert a + b == a && Text(a) + [] == Text(a);
    } else {
      var n := |b| - 1;
      assert (a + b)[..|a| + n] == a + b[..n];
      TextConcat(a, b[..n]);
      assert Text(a + b) == Text(a) + Text(b[..n]) + Token(b[n]) + [SOH];
      assert Text(a) + Text(b[..n]) + Token(b[n]) + [SOH] == Text(a) + (Text(b[..n]) + Token(b[n]) + [SOH]);
    }
  }

  lemma SmallIntText()
    ensures IntText(8) == [56] && IntText(9) == [57] && IntText(10) == [49, 48]
  {
    assert DigitText(1) == [49];
  }

  lemma HeaderTokens(fields: seq<Field>)
    ensures Token(Field(8, FIX_4_2)) == BEGIN_STRING
    ensures [SOH] + Token(Field(9, DigitText(|Body(fields)|))) == BODY_LENGTH_TAG + DigitText(|Body(fields)|)
    ensures Token(Field(10, ThreeDigits(Checksum(Prefix(fields))))) + [SOH] == Trailer(Checksum(Prefix(fields)))
  {
    hide Body, Checksum, Prefix, DigitText;
    SmallIntText();
  }

  /** A printed message is the text of its expected fields. */
  lemma BuildIsText(fields: seq<Field>)
    ensures Build(fields) == Text(Expected(fields))
  {
    hide Token, Checksum, Text, ThreeDigits, IntText, DigitText;
    var eight, nine := Field(8, FIX_4_2), Field(9, DigitText(|Body(fields)|));
    var ten := Field(10, ThreeDigits(Checksum(Prefix(fields))));
    HeaderTokens(fields);
    TextConcat([eight, nine] + Kept(fields), [ten]);
    TextConcat([eight, nine], Kept(fields));
    assert [eight, nine] == [eight] + [nine];
    TextConcat([eight], [nine]);
    TextOne(eight);
    TextOne(nine);
    TextOne(ten);
    assert Text([eight, nine]) == BEGIN_STRING + (BODY_LENGTH_TAG + DigitText(|Body(fields)|)) + [SOH];
  }

  /** The last "10=" of a printed message is its trailer, whatever the values hold. */
  lemma TrailerIsLast(prefix: bytes, c: byte)
    ensures Covered(prefix + Trailer(c)) == prefix
  {
    var raw := prefix + Trailer(c);
    var n := |prefix|;
    assert raw[n..n + 3] == CHECKSUM_TAG;
    forall j: nat | n < j < |raw| ensures !At(raw, CHECKSUM_TAG, j) {
      if j + 3 <= |raw| {
        assert raw[j + 2] == Trailer(c)[j + 2 - n] != EQUALS;
        assert raw[j..j + 3][2] == raw[j + 2];
      }
    }
    assert At(raw, CHECKSUM_TAG, n);
    assert raw[..n] == prefix;
  }

  lemma ThreeDigitsValue(c: byte)
    ensures Stoi(ThreeDigits(c)) == Some(c)
  {
    hide Stoi;
    var s := ThreeDigits(c);
    StoiOfDigits(s);
    assert s[..2] == [ZERO + c / 100, ZERO + c / 10 % 10];
    assert s[..2][..1] == [ZERO + c / 100];
    assert DigitValue(s[..2][..1]) == c / 100 by {
      assert s[..2][..1][..0] == [];
    }
  }

  lemma {:induction false} LookupLast(fields: seq<Field>, last: Field)
    requires forall i :: 0 <= i < |fields| ==> fields[i].tag != last.tag
    ensures Lookup(fields + [last], last.tag) == Some(last.value)
  {
    if fields == [] {
    } else {
      assert (fields + [last])[1..] == fields[1..] + [last];
      LookupLast(fields[1..], last);
    }
  }

  lemma ExpectedChecksumOk(fields: seq<Field>)
    ensures ChecksumOk(Build(fields), Expected(fields))
  {
    hide Stoi, Body, Covered, ThreeDigits, DigitText;
    var c := Checksum(Prefix(fields));
    var front := [Field(8, FIX_4_2), Field(9, DigitText(|Body(fields)|))] + Kept(fields);
    KeptOk(fields);
    LookupLast(front, Field(10, ThreeDigits(c)));
    ThreeDigitsValue(c);
    TrailerIsLast(Prefix(fields), c);
  }

  /** A token never holds a SOH, so neither does a parsed value. */
  lemma {:induction false} ParsedValuesPlain(raw: bytes)
    ensures Tokens(raw).Some? ==>
              forall i :: 0 <= i < |Tokens(raw).value| ==> Plain(Tokens(raw).value[i].value)
    decreases |raw|
  {
    if raw != [] && Tokens(raw).Some? {
      ParsedValuesPlain(AfterToken(raw));
      var token := raw[..TokenEnd(raw)];
      forall i | 0 <= i < |token| ensures token[i] != SOH {
        AtByte(raw, SOH, i);
      }
    }
  }

  lemma PlainIsEnough(fields: seq<Field>)
    requires forall i :: 0 <= i < |Kept(fields)| ==> Plain(Kept(fields)[i].value)
    ensures ParseFields(Build(fields)) == Expected(fields)
  {
    hide Expected, Build, ChecksumOk, Tokens, Text;
    ExpectedPlain(fields);
    BuildIsText(fields);
    TokensOfText(Expected(fields), []);
    assert Text(Expected(fields)) + [] == Text(Expected(fields));
    TokensOfNothing();
    assert Expected(fields) + [] == Expected(fields);
    ExpectedChecksumOk(fields);
  }

  lemma PlainIsNeeded(fields: seq<Field>)
    ensures ParseFields(Build(fields)) == Expected(fields) ==>
              forall i :: 0 <= i < |Kept(fields)| ==> Plain(Kept(fields)[i].value)
  {
    hide Body, ChecksumOk, ThreeDigits, DigitText, Build, Tokens, Checksum, Kept, Plain;
    ParsedValuesPlain(Build(fields));
    assert forall i :: 0 <= i < |Kept(fields)| ==> Expected(fields)[i + 2] == Kept(fields)[i];
    assert Expected(fields) != [];
  }

  /** Print/parse round trip.  A printed message passes the checksum and is read back as
      tags 8 and 9, the fields kept, and tag 10, if and only if no kept value holds a SOH. */
  lemma ParseRoundTrip(fields: seq<Field>)
    ensures ParseFields(Build(fields)) == Expected(fields)
            <==> forall i :: 0 <= i < |Kept(fields)| ==> Plain(Kept(fields)[i].value)
  {
    hide ParseFields, Build, Expected, Kept, Plain;
    if forall i :: 0 <= i < |Kept(fields)| ==> Plain(Kept(fields)[i].value) {
      PlainIsEnough(fields);
    }
    PlainIsNeeded(fields);
  }

  lemma TokensOfNothing()
    ensures Tokens([]) == Some([])
  {
  }

  lemma ExpectedPlain(fields: seq<Field>)
    requires forall i :: 0 <= i < |Kept(fields)| ==> Plain(Kept(fields)[i].value)
    ensures forall i :: 0 <= i < |Expected(fields)| ==> Plain(Expected(fields)[i].value)
  {
    hide Body, Checksum, Kept;
    assert Plain(FIX_4_2) && Plain(DigitText(|Body(fields)|)) && Plain(ThreeDigits(Checksum(Prefix(fields))));
  }

  /** One wrong byte in what the checksum covers is always noticed. */
  lemma {:induction false} ChecksumCatchesOneByte(msg: bytes, i: nat, b: byte)
    requires i < |msg| && msg[i] != b
    ensures Checksum(msg[i := b]) != Checksum(msg)
  {
    SumUpdate(msg, i, b);
    var d := b - msg[i];
    assert Sum(msg[i := b]) == Sum(msg) + d;
  }

  lemma {:induction false} SumUpdate(msg: bytes, i: nat, b: byte)
    requires i < |msg|
    ensures Sum(msg[i := b]) == Sum(msg) - msg[i] + b
  {
    var n := |msg| - 1;
    if i == n {
      assert msg[i := b][..n] == msg[..n];
    } else {
      assert msg[i := b][..n] == msg[..n][i := b];
      SumUpdate(msg[..n], i, b);
    }
  }
}
