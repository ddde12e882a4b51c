/** What `parse_fields` accepts and what it rejects, for every byte string. */
module FixRejection {
  import opened Basics
  import opened FixBytes
  import opened FixFramer
  import opened FixMessages
  import opened FixParsing

  // ---------------------------------------------------------------- tokens

  /** A token is a field exactly when it has a '=' and what precedes the first one is a number. */
  lemma TokenMeaning(tag: bytes, value: bytes)
    requires EQUALS !in tag
    ensures ParseToken(tag) == None
    ensures ParseToken(tag + [EQUALS] + value)
            == if Stoi(tag).None? then None else Some(Field(Stoi(tag).value, value))
  {
    hide Stoi;
    forall j: nat ensures !At(tag, [EQUALS], j) {
      AtByte(tag, EQUALS, j);
    }
    FindByteAfter(tag, EQUALS, value, 0);
    var token := tag + [EQUALS] + value;
    assert token[..|tag|] == tag && token[|tag| + 1..] == value;
  }

  /** The text consists of whole tokens. */
  predicate Closed(text: bytes) {
    text != [] ==> text[|text| - 1] == SOH
  }

  function Both(a: Option<seq<Field>>, b: Option<seq<Field>>): Option<seq<Field>> {
    if a.None? || b.None? then None else Some(a.value + b.value)
  }

  lemma FirstSoh(a: bytes)
    requires SOH in a
    ensures TokenEnd(a) < |a| && Find(a, [SOH], 0) == Some(TokenEnd(a))
  {
    var i :| 0 <= i < |a| && a[i] == SOH;
    AtByte(a, SOH, i);
    AtByte(a, SOH, TokenEnd(a));
  }

  /** With a SOH in `a`, the first token does not depend on what follows. */
  lemma FirstTokenStays(a: bytes, b: bytes)
    requires SOH in a
    ensures TokenEnd(a) < |a| && TokenEnd(a + b) == TokenEnd(a)
    ensures (a + b)[..TokenEnd(a)] == a[..TokenEnd(a)] && AfterToken(a + b) == AfterToken(a) + b
    ensures Closed(a) ==> Closed(AfterToken(a))
  {
    hide Find, At;
    FirstSoh(a);
    FindExtend(a, b, [SOH], 0);
    var end := TokenEnd(a);
    assert (a + b)[end + 1..] == a[end + 1..] + b;
  }

  /** Whole tokens are split off independently of what follows. */
  lemma {:induction false} TokensSplit(a: bytes, b: bytes)
    requires Closed(a)
    ensures Tokens(a + b) == Both(Tokens(a), Tokens(b))
    decreases |a|
  {
    hide ParseToken, TokenEnd, AfterToken;
    if a == [] {
      assert a + b == b;
      assert Tokens(b).Some? ==> [] + Tokens(b).value == Tokens(b).value;
    } else {
      assert a[|a| - 1] in a;
      FirstTokenStays(a, b);
      var rest := AfterToken(a);
      TokensSplit(rest, b);
      var f := ParseToken(a[..TokenEnd(a)]);
      if f.Some? && Tokens(rest).Some? && Tokens(b).Some? {
        assert [f.value] + (Tokens(rest).value + Tokens(b).value) == [f.value] + Tokens(rest).value + Tokens(b).value;
      }
    }
  }

  /** A text without SOH is one token. */
  lemma OneToken(token: bytes)
    requires SOH !in token && token != []
    ensures Tokens(token) == (if ParseToken(token).None? then None else Some([ParseToken(token).value]))
    ensures Tokens(token + [SOH]) == Tokens(token)
  {
    hide ParseToken;
    NoSohToken(token);
    FindByteAfter(token, SOH, [], 0);
    assert token + [SOH] + [] == token + [SOH];
    assert (token + [SOH])[..|token|] == token && token[..|token|] == token;
    assert Tokens([]) == Some([]);
    assert AfterToken(token + [SOH]) == [];
    var f := ParseToken(token);
    assert f.Some? ==> [f.value] + [] == [f.value];
  }

  lemma NoSohToken(token: bytes)
    requires SOH !in token
    ensures TokenEnd(token) == |token|
  {
    forall j: nat ensures !At(token, [SOH], j) {
      AtByte(token, SOH, j);
    }
  }

  /** One malformed token spoils the message, wherever it stands. */
  lemma MalformedRejected(a: bytes, token: bytes, b: bytes)
    requires Closed(a) && SOH !in token && ParseToken(token).None?
    ensures ParseFields(a + token + [SOH] + b) == []
    ensures token != [] ==> ParseFields(a + token) == []
  {
    hide ParseToken, Tokens, ChecksumOk;
    EndedToken(token);
    TokensSplit(a, token + [SOH] + b);
    assert a + (token + [SOH] + b) == a + token + [SOH] + b;
    TokensSplit(token + [SOH], b);
    if token != [] {
      OneToken(token);
      TokensSplit(a, token);
    }
  }

  lemma EndedToken(token: bytes)
    requires SOH !in token && ParseToken(token).None?
    ensures Tokens(token + [SOH]).None?
  {
    hide ParseToken;
    FindByteAfter(token, SOH, [], 0);
    assert token + [SOH] + [] == token + [SOH];
    assert (token + [SOH])[..|token|] == token;
  }

  // ---------------------------------------------------------------- acceptance

  /** `k` is where the last "10=" starts, or the end if there is none. */
  ghost predicate LastTen(raw: bytes, k: nat) {
    if k == |raw| then forall j: nat :: !At(raw, [49, 48, 61], j)
    else At(raw, [49, 48, 61], k) && forall j: nat :: k < j ==> !At(raw, [49, 48, 61], j)
  }

  /** `i` is the first field with tag 10, and its value reads as `sum`. */
  predicate FirstTen(fields: seq<Field>, i: nat, sum: int) {
    && i < |fields| && fields[i].tag == 10 && (forall j :: 0 <= j < i ==> fields[j].tag != 10)
    && Stoi(fields[i].value).Some? && Stoi(fields[i].value).value == sum
  }

  /** The first tag 10 is field `i`, the last "10=" is at `k`, and the checksum is right. */
  ghost predicate Certified(raw: bytes, fields: seq<Field>, i: nat, k: nat) {
    k <= |raw| && LastTen(raw, k) && FirstTen(fields, i, Sum(raw[..k]) % 256)
  }

  lemma CoveredIs(raw: bytes)
    ensures |Covered(raw)| <= |raw| && Covered(raw) == raw[..|Covered(raw)|] && LastTen(raw, |Covered(raw)|)
  {
    assert raw[..|raw|] == raw;
  }

  lemma LastTenUnique(raw: bytes, j: nat, k: nat)
    requires LastTen(raw, j) && LastTen(raw, k)
    ensures j == k
  {
  }

  lemma {:induction false} LookupFirst(fields: seq<Field>, tag: int32) returns (i: nat)
    ensures Lookup(fields, tag).Some? <==> i < |fields|
    ensures i < |fields| ==> fields[i].tag == tag && Lookup(fields, tag) == Some(fields[i].value)
    ensures forall j :: 0 <= j < i && j < |fields| ==> fields[j].tag != tag
  {
    if fields == [] || fields[0].tag == tag {
      i := 0;
    } else {
      i := LookupFirst(fields[1..], tag);
      i := i + 1;
    }
  }

  /** A message is accepted if and only if all its tokens are fields and the first tag 10 reads
      as the byte sum, modulo 256, of what precedes the last "10="; it then gives all its fields. */
  lemma AcceptedIff(raw: bytes)
    ensures ParseFields(raw) != []
            <==> Tokens(raw).Some?
                 && exists i, k :: Certified(raw, Tokens(raw).value, i, k)
    ensures ParseFields(raw) != [] ==> Tokens(raw) == Some(ParseFields(raw))
  {
    hide Stoi, Tokens, Sum, Covered, LastTen;
    CoveredIs(raw);
    var cut := |Covered(raw)|;
    if Tokens(raw).Some? {
      var fields := Tokens(raw).value;
      var first := LookupFirst(fields, 10);
      if i, k :| Certified(raw, fields, i, k) {
        LastTenUnique(raw, k, cut);
        assert i == first;
      }
      if ChecksumOk(raw, fields) {
        assert Certified(raw, fields, first, cut);
      }
    }
  }

  // ---------------------------------------------------------------- wrong checksums

  /** No token of the text is a field with this tag. */
  ghost predicate NoField(raw: bytes, tag: int32)
    decreases |raw|
  {
    raw == [] || (var f := ParseToken(raw[..TokenEnd(raw)]);
                  (f.Some? ==> f.value.tag != tag) && NoField(AfterToken(raw), tag))
  }

  /** A well-formed text has no such field exactly when none of its fields has the tag. */
  lemma {:induction false} NoFieldIff(raw: bytes, tag: int32)
    requires Tokens(raw).Some?
    ensures NoField(raw, tag)
            <==> forall i :: 0 <= i < |Tokens(raw).value| ==> Tokens(raw).value[i].tag != tag
    decreases |raw|
  {
    hide ParseToken, TokenEnd, AfterToken;
    if raw == [] {
    } else {
      var later := Tokens(AfterToken(raw)).value;
      NoFieldIff(AfterToken(raw), tag);
      var all := Tokens(raw).value;
      assert all == [all[0]] + later;
      assert forall i :: 0 < i < |all| ==> all[i] == later[i - 1];
      assert forall i :: 0 <= i < |later| ==> later[i] == all[i + 1];
    }
  }

  /** The token that the trailer ends, when it does not start a new one. */
  lemma LastTokenTag(p: bytes, c: byte)
    requires SOH !in p && NoField(p, 10)
    ensures var t := Tokens(p + Trailer(c));
            t.Some? ==> Lookup(t.value, 10).None? || Lookup(t.value, 10) == Some(ThreeDigits(c))
  {
    hide Stoi, ParseToken;
    var digits := ThreeDigits(c);
    var token := p + CHECKSUM_TAG + digits;
    assert p + Trailer(c) == token + [SOH];
    OneToken(token);
    MergedToken(p, digits);
  }

  lemma MergedToken(p: bytes, digits: bytes)
    requires SOH !in p && NoField(p, 10)
    ensures var f := ParseToken(p + CHECKSUM_TAG + digits);
            f.Some? && f.value.tag == 10 ==> f.value.value == digits
  {
    hide Stoi, ParseToken, NoField;
    var token := p + CHECKSUM_TAG + digits;
    if EQUALS in p {
      OwnTag(p);
      var eq := FirstEquals(p);
      var tag, value := p[..eq], p[eq + 1..];
      assert p == tag + [EQUALS] + value;
      assert token == tag + [EQUALS] + (value + CHECKSUM_TAG + digits);
      TokenMeaning(tag, value);
      TokenMeaning(tag, value + CHECKSUM_TAG + digits);
    } else {
      var tag := p + [49, 48];
      assert token == tag + [EQUALS] + digits;
      TokenMeaning(tag, digits);
    }
  }

  lemma OwnTag(p: bytes)
    requires SOH !in p && p != [] && NoField(p, 10)
    ensures ParseToken(p).Some? ==> ParseToken(p).value.tag != 10
  {
    hide ParseToken;
    NoSohToken(p);
    assert p[..|p|] == p;
  }

  lemma FirstEquals(p: bytes) returns (eq: nat)
    requires EQUALS in p
    ensures eq < |p| && p[eq] == EQUALS && EQUALS !in p[..eq]
  {
    var i :| 0 <= i < |p| && p[i] == EQUALS;
    AtByte(p, EQUALS, i);
    eq := Find(p, [EQUALS], 0).value;
    AtByte(p, EQUALS, eq);
    forall j | 0 <= j < eq ensures p[..eq][j] != EQUALS {
      AtByte(p, EQUALS, j);
    }
  }

  /** Behind a text without a tag 10, the first tag 10 can only be the trailer's. */
  lemma {:induction false} OnlyTrailerTag(p: bytes, c: byte)
    requires NoField(p, 10)
    ensures var t := Tokens(p + Trailer(c));
            t.Some? ==> Lookup(t.value, 10).None? || Lookup(t.value, 10) == Some(ThreeDigits(c))
    decreases |p|
  {
    hide ParseToken, Trailer, ThreeDigits;
    if SOH !in p {
      LastTokenTag(p, c);
    } else {
      FirstTokenStays(p, Trailer(c));
      OnlyTrailerTag(AfterToken(p), c);
      var later := Tokens(AfterToken(p) + Trailer(c));
      var f := ParseToken(p[..TokenEnd(p)]);
      if f.Some? && later.Some? {
        assert ([f.value] + later.value)[1..] == later.value;
      }
    }
  }

  /** A trailer whose checksum is not the byte sum of what precedes it is rejected. */
  lemma WrongChecksumRejected(p: bytes, c: byte)
    requires NoField(p, 10) && c != Sum(p) % 256
    ensures ParseFields(p + [49, 48, 61, 48 + c / 100, 48 + c / 10 % 10, 48 + c % 10, 1]) == []
  {
    hide Stoi, Covered, Tokens, NoField;
    assert Trailer(c) == [49, 48, 61, 48 + c / 100, 48 + c / 10 % 10, 48 + c % 10, 1];
    OnlyTrailerTag(p, c);
    TrailerIsLast(p, c);
    ThreeDigitsValue(c);
  }

  /** Behind whole tokens without a tag 10, a trailer is accepted if and only if the tokens are
      fields and the checksum is right; the fields are then those tokens and the trailer. */
  lemma TrailerAcceptedIff(p: bytes, c: byte)
    requires Closed(p) && NoField(p, 10)
    ensures ParseFields(p + Trailer(c))
            == if Tokens(p).Some? && c == Sum(p) % 256 then Tokens(p).value + [Field(10, ThreeDigits(c))] else []
  {
    hide Stoi, Covered, Tokens, NoField, Trailer, ThreeDigits;
    TrailerTokens(c);
    TokensSplit(p, Trailer(c));
    TrailerIsLast(p, c);
    ThreeDigitsValue(c);
    if Tokens(p).Some? {
      NoFieldIff(p, 10);
      LookupLast(Tokens(p).value, Field(10, ThreeDigits(c)));
    }
  }

  lemma TrailerTokens(c: byte)
    ensures Tokens(Trailer(c)) == Some([Field(10, ThreeDigits(c))])
  {
    hide ThreeDigits, Tokens, ParseToken;
    var ten := Field(10, ThreeDigits(c));
    SmallIntText();
    assert Trailer(c) == Token(ten) + [SOH] + [];
    FirstToken(ten, []);
    TokensOfNothing();
    assert [ten] + [] == [ten];
  }

  /** One wrong byte before the trailer is always noticed. */
  lemma CorruptionRejected(p: bytes, i: nat, b: byte)
    requires i < |p| && p[i] != b && NoField(p[i := b], 10)
    ensures ParseFields(p[i := b] + Trailer(Checksum(p))) == []
  {
    hide NoField, ParseFields, Sum;
    ChecksumCatchesOneByte(p, i, b);
    var c := Checksum(p);
    WrongChecksumRejected(p[i := b], c);
    assert Trailer(c) == [49, 48, 61, 48 + c / 100, 48 + c / 10 % 10, 48 + c % 10, 1];
  }
}
