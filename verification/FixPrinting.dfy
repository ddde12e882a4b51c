/** What `build_fix_message` prints, stated on its input and on bytes. */
module FixPrinting {
  import opened Basics
  import opened FixBytes
  import opened FixFramer
  import opened FixMessages
  import opened FixParsing
  import opened FixRejection

  /** No field has a tag that the printer generates, and no value holds a SOH. */
  predicate Printable(fields: seq<Field>) {
    forall i :: 0 <= i < |fields| ==> fields[i].tag !in {8, 9, 10} && SOH !in fields[i].value
  }

  /** "8=FIX.4.2" SOH "9=" length SOH, the fields but for tags 8, 9 and 10, "10=" three digits SOH. */
  lemma BuildLayout(fields: seq<Field>)
    ensures var body := Text(Kept(fields));
            var front := [56, 61, 70, 73, 88, 46, 52, 46, 50, 1, 57, 61] + DigitText(|body|) + [1] + body;
            var c := Sum(front) % 256;
            Build(fields) == front + [49, 48, 61, 48 + c / 100, 48 + c / 10 % 10, 48 + c % 10, 1]
  {
    hide Text, Kept, Sum, DigitText;
    var body := Text(Kept(fields));
    var front := [56, 61, 70, 73, 88, 46, 52, 46, 50, 1, 57, 61] + DigitText(|body|) + [1] + body;
    assert Prefix(fields) == front;
    var c: byte := Sum(front) % 256;
    assert Trailer(c) == [49, 48, 61, 48 + c / 100, 48 + c / 10 % 10, 48 + c % 10, 1];
  }

  /** Printing and reading back, on the caller's own list: tag 8 "FIX.4.2", tag 9 with the decimal
      length of the body, the list itself, and tag 10 with the checksum in three digits. */
  lemma PrintParse(fields: seq<Field>) returns (c: byte)
    requires Printable(fields)
    ensures ParseFields(Build(fields))
            == [Field(8, [70, 73, 88, 46, 52, 46, 50]), Field(9, DigitText(|Text(fields)|))]
               + fields
               + [Field(10, [48 + c / 100, 48 + c / 10 % 10, 48 + c % 10])]
    ensures Build(fields)[..|Build(fields)| - 7] == Prefix(fields) && c == Sum(Prefix(fields)) % 256
  {
    hide Kept, ParseFields, Text, DigitText, Sum, Prefix;
    KeptAll(fields);
    c := Checksum(Prefix(fields));
    assert Build(fields)[..|Build(fields)| - 7] == Prefix(fields);
    hide Build;
    ParseRoundTrip(fields);
    DigitsOf(c);
    assert FIX_4_2 == [70, 73, 88, 46, 52, 46, 50];
  }

  lemma DigitsOf(c: byte)
    ensures ThreeDigits(c) == [48 + c / 100, 48 + c / 10 % 10, 48 + c % 10]
  {
  }

  lemma {:induction false} LookupSkips(front: seq<Field>, rest: seq<Field>, tag: int32)
    requires forall i :: 0 <= i < |front| ==> front[i].tag != tag
    ensures Lookup(front + rest, tag) == Lookup(rest, tag)
  {
    if front == [] {
      assert front + rest == rest;
    } else {
      assert (front + rest)[1..] == front[1..] + rest;
      LookupSkips(front[1..], rest, tag);
    }
  }

  /** Every field that was printed is found again with its value: the first one with its tag. */
  lemma PrintedFieldFound(fields: seq<Field>, i: nat)
    requires Printable(fields) && i < |fields|
    requires forall j :: 0 <= j < i ==> fields[j].tag != fields[i].tag
    ensures Lookup(ParseFields(Build(fields)), fields[i].tag) == Some(fields[i].value)
    ensures Lookup(ParseFields(Build(fields)), 8) == Some([70, 73, 88, 46, 52, 46, 50])
  {
    hide ParseFields, Build, DigitText, Text, Lookup;
    var c := PrintParse(fields);
    var parsed := ParseFields(Build(fields));
    var eight, nine := parsed[0], parsed[1];
    var front, rest := [eight, nine] + fields[..i], fields[i + 1..] + [parsed[|parsed| - 1]];
    assert fields == fields[..i] + [fields[i]] + fields[i + 1..];
    assert parsed == front + ([fields[i]] + rest);
    LookupSkips(front, [fields[i]] + rest, fields[i].tag);
    LookupHead(fields[i], rest);
    assert parsed == [eight] + parsed[1..];
    LookupHead(eight, parsed[1..]);
  }

  lemma LookupHead(f: Field, rest: seq<Field>)
    ensures Lookup([f] + rest, f.tag) == Some(f.value)
  {
  }

  // ---------------------------------------------------------------- one message, byte by byte

  /** "8=FIX.4.2|9=5|35=D|", with SOH for each bar. */
  const FRONT: bytes := [56, 61, 70, 73, 88, 46, 52, 46, 50, 1, 57, 61, 53, 1, 51, 53, 61, 68, 1]

  lemma FrontSum()
    ensures Sum(FRONT) == 949
  {
    hide Sum;
    var x: bytes, y: bytes, z: bytes := [56, 61, 70, 73, 88], [46, 52, 46, 50, 1], [57, 61, 53, 1, 51];
    var w: bytes := [53, 61, 68, 1];
    SumOfFive(56, 61, 70, 73, 88);
    SumOfFive(46, 52, 46, 50, 1);
    SumOfFive(57, 61, 53, 1, 51);
    SumOfFive(0, 53, 61, 68, 1);
    SumConcat([0], w);
    SumOfOne(0);
    assert [0] + w == [0, 53, 61, 68, 1];
    SumConcat(x, y);
    SumConcat(x + y, z);
    SumConcat(x + y + z, w);
    assert FRONT == x + y + z + w;
  }

  lemma OneFieldText()
    ensures Text([Field(35, [68])]) == [51, 53, 61, 68, 1]
  {
    TextOne(Field(35, [68]));
    assert DigitText(3) == [51];
    assert DigitText(35) == [51, 53];
  }

  /** The message with the one field 35=D, whose checksum is 181, as it is printed. */
  lemma PrintedExample()
    ensures Build([Field(35, [68])]) == FRONT + [49, 48, 61, 49, 56, 49, 1]
  {
    hide Text, Kept, Sum, Build;
    var fields := [Field(35, [68])];
    KeptAll(fields);
    OneFieldText();
    FrontSum();
    BuildLayout(fields);
    FrontBytes();
  }

  lemma FrontBytes()
    ensures [56, 61, 70, 73, 88, 46, 52, 46, 50, 1, 57, 61] + DigitText(5) + [1] + [51, 53, 61, 68, 1] == FRONT
  {
    assert DigitText(5) == [53];
  }

  /** The same message with the checksum 000 is rejected. */
  lemma BadChecksumExample()
    ensures ParseFields(FRONT + [49, 48, 61, 48, 48, 48, 1]) == []
  {
    hide ParseFields, NoField, Sum;
    FrontSum();
    FrontHasNoTen();
    var c: byte := 0;
    WrongChecksumRejected(FRONT, c);
    assert [49, 48, 61, 48 + c / 100, 48 + c / 10 % 10, 48 + c % 10, 1] == [49, 48, 61, 48, 48, 48, 1];
  }

  const FRONT_FIELDS := [Field(8, [70, 73, 88, 46, 52, 46, 50]), Field(9, [53]), Field(35, [68])]

  lemma FrontText()
    ensures Text(FRONT_FIELDS) == FRONT
  {
    var x, y, z := FRONT_FIELDS[0], FRONT_FIELDS[1], FRONT_FIELDS[2];
    OneFieldText();
    SmallIntText();
    TextOne(x);
    TextOne(y);
    assert Token(x) + [SOH] == [56, 61, 70, 73, 88, 46, 52, 46, 50, 1];
    assert Token(y) + [SOH] == [57, 61, 53, 1] by {
      assert DigitText(9) == [57];
    }
    hide Text, IntText, Token;
    TextConcat([x] + [y], [z]);
    TextConcat([x], [y]);
    assert FRONT_FIELDS == [x] + [y] + [z];
  }

  lemma FrontHasNoTen()
    ensures NoField(FRONT, 10)
  {
    hide Tokens, NoField, Text;
    FrontText();
    TokensOfText(FRONT_FIELDS, []);
    TokensOfNothing();
    assert FRONT_FIELDS + [] == FRONT_FIELDS && FRONT + [] == FRONT;
    NoFieldIff(FRONT, 10);
  }
}
