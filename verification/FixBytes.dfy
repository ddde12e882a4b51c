/** Byte strings, the std::string searches and the decimal conversions the FIX code relies on. */
module FixBytes {
  import opened Basics

  type bytes = seq<byte>
  type int32 = x: int | -0x8000_0000 <= x <= 0x7FFF_FFFF

  const INT_MAX: int := 0x7FFF_FFFF
  const INT_MIN: int := -0x8000_0000

  const SOH: byte := 1
  const EQUALS: byte := 61
  const MINUS: byte := 45
  const PLUS: byte := 43
  const ZERO: byte := 48

  // ---------------------------------------------------------------- searching

  /** `pat` occurs in `s` at index `i`. */
  predicate At(s: bytes, pat: bytes, i: nat) {
    i + |pat| <= |s| && s[i..i + |pat|] == pat
  }

  /** `s.find(pat, from)`: the first occurrence at or after `from`. */
  function Find(s: bytes, pat: bytes, from: nat): (r: Option<nat>)
    ensures r.Some? ==> from <= r.value && At(s, pat, r.value)
                        && forall j: nat :: from <= j < r.value ==> !At(s, pat, j)
    ensures r.None? ==> forall j: nat :: from <= j ==> !At(s, pat, j)
    decreases |s| - from
  {
    if from + |pat| > |s| then None
    else if s[from..from + |pat|] == pat then Some(from)
    else Find(s, pat, from + 1)
  }

  /** `s.rfind(pat)`: the last occurrence that starts before `below`. */
  function RFind(s: bytes, pat: bytes, below: nat): (r: Option<nat>)
    ensures r.Some? ==> r.value < below && At(s, pat, r.value)
                        && forall j: nat :: r.value < j < below ==> !At(s, pat, j)
    ensures r.None? ==> forall j: nat :: j < below ==> !At(s, pat, j)
  {
    if below == 0 then None
    else if At(s, pat, below - 1) then Some(below - 1)
    else RFind(s, pat, below - 1)
  }

  /** An occurrence that is already there stays the first one when more bytes arrive. */
  lemma FindExtend(s: bytes, more: bytes, pat: bytes, from: nat)
    requires Find(s, pat, from).Some?
    ensures Find(s + more, pat, from) == Find(s, pat, from)
  {
    var i := Find(s, pat, from).value;
    assert (s + more)[i..i + |pat|] == s[i..i + |pat|];
    assert At(s + more, pat, i);
    forall j: nat | from <= j < i ensures !At(s + more, pat, j) {
      assert !At(s, pat, j);
      assert (s + more)[j..j + |pat|] == s[j..j + |pat|];
    }
  }

  lemma NotAt(s: bytes, pat: bytes, i: nat)
    requires pat != [] && (i < |s| ==> s[i] != pat[0])
    ensures !At(s, pat, i)
  {
    if i + |pat| <= |s| {
      assert s[i..i + |pat|][0] == s[i];
    }
  }

  lemma AtByte(s: bytes, b: byte, i: nat)
    ensures At(s, [b], i) <==> i < |s| && s[i] == b
  {
    if i < |s| {
      assert s[i..i + 1] == [s[i]];
    }
  }

  /** The first `b` of a string that starts with `x` and then `b`. */
  lemma FindByteAfter(x: bytes, b: byte, y: bytes, from: nat)
    requires from <= |x| && forall i :: from <= i < |x| ==> x[i] != b
    ensures Find(x + [b] + y, [b], from) == Some(|x|)
  {
    var s := x + [b] + y;
    AtByte(s, b, |x|);
    forall j: nat | from <= j < |x| ensures !At(s, [b], j) {
      AtByte(s, b, j);
    }
  }

  // ---------------------------------------------------------------- decimal text

  predicate IsDigit(b: byte) {
    ZERO <= b <= ZERO + 9
  }

  /** Digits of a natural number, as std::to_string prints it. */
  function DigitText(n: nat): (s: bytes)
    ensures s != [] && forall i :: 0 <= i < |s| ==> IsDigit(s[i])
  {
    if n < 10 then [ZERO + n] else DigitText(n / 10) + [ZERO + n % 10]
  }

  function IntText(n: int): bytes {
    if n < 0 then [MINUS] + DigitText(-n) else DigitText(n)
  }

  function DigitValue(s: bytes): nat
    requires forall i :: 0 <= i < |s| ==> IsDigit(s[i])
  {
    if s == [] then 0
    else
      assert IsDigit(s[|s| - 1]);
      10 * DigitValue(s[..|s| - 1]) + (s[|s| - 1] - ZERO)
  }

  /** Length of the leading run of digits. */
  function DigitRun(s: bytes): (n: nat)
    ensures n <= |s| && forall i :: 0 <= i < n ==> IsDigit(s[i])
    ensures n < |s| ==> !IsDigit(s[n])
  {
    if s == [] || !IsDigit(s[0]) then 0 else 1 + DigitRun(s[1..])
  }

  predicate IsSpace(b: byte) {
    b == 32 || 9 <= b <= 13
  }

  function SkipSpace(s: bytes): bytes {
    if s != [] && IsSpace(s[0]) then SkipSpace(s[1..]) else s
  }

  /** The number, if it fits an int. */
  function IntOption(negative: bool, magnitude: nat): Option<int32> {
    var v: int := magnitude;
    var signed := if negative then -v else v;
    if INT_MIN <= signed <= INT_MAX then Some(signed) else None
  }

  /** std::stoi: white space, an optional sign, then as many digits as there are; what
      follows is ignored.  None stands for the exceptions invalid_argument (no digit)
      and out_of_range (does not fit an int). */
  function Stoi(s: bytes): Option<int32> {
    var t := SkipSpace(s);
    var negative := t != [] && t[0] == MINUS;
    var digits := if t != [] && (t[0] == MINUS || t[0] == PLUS) then t[1..] else t;
    var n := DigitRun(digits);
    if n == 0 then None else IntOption(negative, DigitValue(digits[..n]))
  }

  lemma {:induction false} DigitTextValue(n: nat)
    ensures DigitValue(DigitText(n)) == n
  {
    if n >= 10 {
      var s := DigitText(n);
      assert s[..|s| - 1] == DigitText(n / 10);
      DigitTextValue(n / 10);
    } else {
      assert DigitText(n)[..0] == [];
    }
  }

  /** The decimal text of a number has no leading zero. */
  lemma {:induction false} DigitTextCanonical(n: nat)
    ensures n < 10 ==> |DigitText(n)| == 1
    ensures n >= 10 ==> |DigitText(n)| > 1 && DigitText(n)[0] != ZERO
  {
    if n < 10 {
    } else if n < 100 {
      assert DigitText(n / 10) == [ZERO + n / 10];
    } else {
      DigitTextCanonical(n / 10);
    }
  }

  lemma DigitRunAll(s: bytes)
    requires forall i :: 0 <= i < |s| ==> IsDigit(s[i])
    ensures DigitRun(s) == |s|
  {
  }

  lemma StoiOfDigits(s: bytes)
    requires s != [] && forall i :: 0 <= i < |s| ==> IsDigit(s[i])
    ensures Stoi(s) == if DigitValue(s) <= INT_MAX then Some(DigitValue(s)) else None
  {
    DigitRunAll(s);
    assert s[..|s|] == s;
    assert SkipSpace(s) == s;
  }

  /** Printing and reading back: exact for every int, an exception beyond. */
  lemma StoiOfIntText(n: int)
    ensures Stoi(IntText(n)) == if INT_MIN <= n <= INT_MAX then Some(n) else None
  {
    hide Stoi, DigitText, DigitValue;
    var digits := DigitText(if n < 0 then -n else n);
    var sign := if n < 0 then [MINUS] else [];
    DigitTextValue(if n < 0 then -n else n);
    StoiReads([], sign, digits, []);
    assert [] + (sign + (digits + [])) == IntText(n);
  }

  /** A sign as std::stoi takes it: nothing, '+' or '-'. */
  predicate IsSign(sign: bytes) {
    sign == [] || sign == [PLUS] || sign == [MINUS]
  }

  lemma {:induction false} SpaceSkipped(space: bytes, text: bytes)
    requires forall i :: 0 <= i < |space| ==> IsSpace(space[i])
    requires text != [] ==> !IsSpace(text[0])
    ensures SkipSpace(space + text) == text
  {
    if space == [] {
      assert space + text == text;
    } else {
      assert (space + text)[1..] == space[1..] + text;
      SpaceSkipped(space[1..], text);
    }
  }

  lemma {:induction false} DigitRunIs(digits: bytes, rest: bytes)
    requires forall i :: 0 <= i < |digits| ==> IsDigit(digits[i])
    requires rest != [] ==> !IsDigit(rest[0])
    ensures DigitRun(digits + rest) == |digits|
  {
    if digits == [] {
      assert digits + rest == rest;
    } else {
      assert (digits + rest)[1..] == digits[1..] + rest;
      DigitRunIs(digits[1..], rest);
    }
  }

  /** What std::stoi makes of any text: white space, a sign, digits, and anything that does not
      go on with a digit.  It throws exactly when there is no digit or the number is no int. */
  lemma StoiReads(space: bytes, sign: bytes, digits: bytes, rest: bytes)
    requires forall i :: 0 <= i < |space| ==> space[i] in {9, 10, 11, 12, 13, 32}
    requires IsSign(sign)
    requires forall i :: 0 <= i < |digits| ==> IsDigit(digits[i])
    requires rest != [] ==> !IsDigit(rest[0])
    requires sign == digits == [] && rest != [] ==>
               rest[0] !in {9, 10, 11, 12, 13, 32} && rest[0] != PLUS && rest[0] != MINUS
    ensures Stoi(space + (sign + (digits + rest)))
            == if digits == [] then None else IntOption(sign == [MINUS], DigitValue(digits))
  {
    hide SkipSpace, DigitRun, DigitValue, Stoi, IntOption;
    var more := digits + rest;
    StartsNumber(sign, digits, rest);
    SpaceSkipped(space, sign + more);
    DigitRunIs(digits, rest);
    assert more[..|digits|] == digits;
    StoiAfterSpace(space + (sign + more), sign, more, digits);
  }

  lemma StoiAfterSpace(s: bytes, sign: bytes, more: bytes, digits: bytes)
    requires SkipSpace(s) == sign + more && IsSign(sign)
    requires sign == [] && more != [] ==> more[0] != PLUS && more[0] != MINUS
    requires DigitRun(more) == |digits| && more[..|digits|] == digits
    ensures Stoi(s) == if digits == [] then None else IntOption(sign == [MINUS], DigitValue(digits))
  {
    hide SkipSpace, DigitRun, DigitValue;
    SignRead(sign, more);
  }

  lemma StartsNumber(sign: bytes, digits: bytes, rest: bytes)
    requires IsSign(sign) && forall i :: 0 <= i < |digits| ==> IsDigit(digits[i])
    requires sign == digits == [] && rest != [] ==> !IsSpace(rest[0]) && rest[0] != PLUS && rest[0] != MINUS
    ensures var t := sign + (digits + rest); t != [] ==> !IsSpace(t[0])
    ensures var more := digits + rest; sign == [] && more != [] ==> more[0] != PLUS && more[0] != MINUS
  {
    var more := digits + rest;
    var t := sign + more;
    if digits != [] {
      assert more[0] == digits[0];
    } else {
      assert more == rest;
    }
    if sign == [] {
      assert t == more;
    } else {
      assert t[0] == sign[0];
    }
  }

  /** The sign is told from what follows it, which does not start with one. */
  lemma SignRead(sign: bytes, more: bytes)
    requires IsSign(sign) && (sign == [] && more != [] ==> more[0] != PLUS && more[0] != MINUS)
    ensures var t := sign + more;
            && (t != [] && t[0] == MINUS <==> sign == [MINUS])
            && (if t != [] && (t[0] == MINUS || t[0] == PLUS) then t[1..] else t) == more
  {
    var t := sign + more;
    if sign == [] {
      assert t == more;
    } else {
      assert t[0] == sign[0] && t[1..] == more;
    }
  }

  lemma IntTextPlain(n: int)
    ensures forall i :: 0 <= i < |IntText(n)| ==> IntText(n)[i] != SOH && IntText(n)[i] != EQUALS
  {
  }

  // ---------------------------------------------------------------- lists of byte strings

  function Flatten(parts: seq<bytes>): bytes {
    if parts == [] then [] else parts[0] + Flatten(parts[1..])
  }

  lemma {:induction false} FlattenConcat(a: seq<bytes>, b: seq<bytes>)
    ensures Flatten(a + b) == Flatten(a) + Flatten(b)
  {
    if a == [] {
      assert a + b == b;
    } else {
      assert (a + b)[1..] == a[1..] + b;
      FlattenConcat(a[1..], b);
    }
  }
}
