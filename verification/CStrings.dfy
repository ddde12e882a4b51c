/** The C string functions: NUL-terminated texts inside byte arrays.

    A pointer into a string is an array with an offset.  The text at a pointer is what
    stands before the first NUL. */
module CStrings {
  import opened Basics

  const NUL: byte := 0

  /** Index of the first NUL. */
  function Length(mem: seq<byte>): (n: nat)
    requires NUL in mem
    ensures n < |mem| && mem[n] == NUL && forall i :: 0 <= i < n ==> mem[i] != NUL
  {
    if mem[0] == NUL then 0
    else
      assert mem == [mem[0]] + mem[1..];
      1 + Length(mem[1..])
  }

  function TextOf(mem: seq<byte>): (text: seq<byte>)
    requires NUL in mem
    ensures Plain(text)
  {
    mem[..Length(mem)]
  }

  /** Text holds no NUL. */
  predicate Plain(text: seq<byte>) {
    forall i :: 0 <= i < |text| ==> text[i] != NUL
  }

  predicate IsString(a: array<byte>, off: nat)
    reads a
  {
    off < a.Length && NUL in a[off..]
  }

  function Text(a: array<byte>, off: nat): (text: seq<byte>)
    requires IsString(a, off)
    reads a
    ensures Plain(text) && off + |text| < a.Length
  {
    TextOf(a[off..])
  }

  /** A text followed by a NUL is read back, whatever comes after. */
  lemma TextRoundTrip(text: seq<byte>, more: seq<byte>)
    requires Plain(text)
    ensures NUL in text + [NUL] + more && TextOf(text + [NUL] + more) == text
  {
    var mem := text + [NUL] + more;
    assert mem[|text|] == NUL;
    assert forall i :: 0 <= i < |text| ==> mem[i] == text[i];
  }

  // ---------------------------------------------------------------- length and copies

  method StrLen(a: array<byte>, off: nat) returns (n: nat)
    requires IsString(a, off)
    ensures n == |Text(a, off)|
  {
    n := 0;
    while a[off + n] != NUL
      invariant n <= |Text(a, off)|
      decreases |Text(a, off)| - n
    {
      assert a[off + n] == a[off..][n];
      n := n + 1;
    }
    assert a[off + n] == a[off..][n];
  }

  /** The bytes a text is made of. */
  lemma TextBytes(a: array<byte>, off: nat)
    requires IsString(a, off)
    ensures forall k :: 0 <= k < |Text(a, off)| ==> a[off + k] == Text(a, off)[k]
    ensures a[off + |Text(a, off)|] == NUL
  {
    var mem := a[off..];
    assert forall k :: 0 <= k < |mem| ==> a[off + k] == mem[k];
  }

  /** The loop of `strcpy` on the text `t` and the NUL behind it. */
  method CopyBytes(dst: array<byte>, d: nat, src: array<byte>, s: nat, ghost t: seq<byte>)
    requires dst != src && s + |t| < src.Length && d + |t| < dst.Length && Plain(t)
    requires src[s + |t|] == NUL && forall k :: 0 <= k < |t| ==> src[s + k] == t[k]
    modifies dst
    ensures dst[d + |t|] == NUL && forall k :: 0 <= k < |t| ==> dst[d + k] == t[k]
    ensures forall k :: 0 <= k < d || d + |t| < k < dst.Length ==> dst[k] == old(dst[k])
  {
    var i := 0;
    while src[s + i] != NUL
      invariant i <= |t| && (i < |t| ==> src[s + i] == t[i])
      invariant forall k :: 0 <= k < i ==> dst[d + k] == t[k]
      invariant forall k :: 0 <= k < d || d + i <= k < dst.Length ==> dst[k] == old(dst[k])
      decreases |t| - i
    {
      dst[d + i] := src[s + i];
      i := i + 1;
    }
    dst[d + i] := NUL;
  }

  /** Copies the text and its NUL; no other byte of the destination changes. */
  method StrCpy(dst: array<byte>, d: nat, src: array<byte>, s: nat)
    requires dst != src && IsString(src, s) && d + |Text(src, s)| < dst.Length
    modifies dst
    ensures var t := Text(src, s);
            dst[..] == old(dst[..d]) + t + [NUL] + old(dst[d + |t| + 1..])
    ensures IsString(dst, d) && Text(dst, d) == Text(src, s)
  {
    hide Text, IsString;
    ghost var t, was := Text(src, s), dst[..];
    TextBytes(src, s);
    CopyBytes(dst, d, src, s, t);
    Assembled(dst[..], was, d, t);
    assert dst[d..] == dst[..][d..];
    Terminated(dst, d, t, was[d + |t| + 1..]);
    assert was[..d] == old(dst[..d]) && was[d + |t| + 1..] == old(dst[d + |t| + 1..]);
  }

  lemma Assembled(now: seq<byte>, was: seq<byte>, d: nat, t: seq<byte>)
    requires |now| == |was| && d + |t| < |was|
    requires forall k :: 0 <= k < |t| ==> now[d + k] == t[k]
    requires now[d + |t|] == NUL
    requires forall k :: 0 <= k < d || d + |t| < k < |was| ==> now[k] == was[k]
    ensures now == was[..d] + t + [NUL] + was[d + |t| + 1..]
    ensures now[d..] == t + [NUL] + was[d + |t| + 1..]
  {
    assert now[d..d + |t|] == t;
  }

  lemma Terminated(a: array<byte>, off: nat, text: seq<byte>, more: seq<byte>)
    requires off < a.Length && Plain(text) && a[off..] == text + [NUL] + more
    ensures IsString(a, off) && Text(a, off) == text
  {
    TextRoundTrip(text, more);
  }

  /** Appends in place: the copy starts on the NUL of the first text. */
  method StrCat(dst: array<byte>, src: array<byte>)
    requires dst != src && IsString(dst, 0) && IsString(src, 0)
    requires |Text(dst, 0)| + |Text(src, 0)| < dst.Length
    modifies dst
    ensures IsString(dst, 0) && Text(dst, 0) == old(Text(dst, 0)) + Text(src, 0)
  {
    ghost var head, tail := Text(dst, 0), Text(src, 0);
    var n := StrLen(dst, 0);
    assert dst[0..] == dst[..] && dst[..n] == head;
    StrCpy(dst, n, src, 0);
    ghost var more := old(dst[|Text(dst, 0)| + |Text(src, 0)| + 1..]);
    assert dst[..] == (head + tail) + [NUL] + more;
    TextRoundTrip(head + tail, more);
    assert dst[0..] == dst[..];
  }

  method StrDup(a: array<byte>) returns (copy: array<byte>)
    requires IsString(a, 0)
    ensures fresh(copy) && copy.Length == |Text(a, 0)| + 1
    ensures IsString(copy, 0) && Text(copy, 0) == Text(a, 0)
  {
    var n := StrLen(a, 0);
    copy := new byte[n + 1];
    StrCpy(copy, 0, a, 0);
  }

  /** A new string of exactly the size needed; the second copy overwrites the first NUL. */
  method StrJoin(a: array<byte>, b: array<byte>) returns (joined: array<byte>)
    requires IsString(a, 0) && IsString(b, 0)
    ensures fresh(joined) && joined.Length == |Text(a, 0)| + |Text(b, 0)| + 1
    ensures IsString(joined, 0) && Text(joined, 0) == Text(a, 0) + Text(b, 0)
  {
    var n := StrLen(a, 0);
    var m := StrLen(b, 0);
    joined := new byte[n + m + 1];
    StrCpy(joined, 0, a, 0);
    assert joined[0..][..n] == Text(a, 0);
    assert joined[..n] == Text(a, 0);
    StrCpy(joined, n, b, 0);
    assert joined[..] == (Text(a, 0) + Text(b, 0)) + [NUL] + [];
    TextRoundTrip(Text(a, 0) + Text(b, 0), []);
    assert joined[0..] == joined[..];
  }

  // ---------------------------------------------------------------- order

  /** Difference of the first bytes that differ, the NULs included. */
  function Compare(a: seq<byte>, b: seq<byte>): int {
    if a == [] && b == [] then 0
    else if a == [] then -b[0]
    else if b == [] then a[0]
    else if a[0] != b[0] then a[0] - b[0]
    else Compare(a[1..], b[1..])
  }

  method StrCmp(a: array<byte>, b: array<byte>) returns (order: int)
    requires IsString(a, 0) && IsString(b, 0)
    ensures order == Compare(Text(a, 0), Text(b, 0))
  {
    var x, y := Text(a, 0), Text(b, 0);
    var i := 0;
    assert a[0..] == a[..] && b[0..] == b[..];
    assert x[0..] == x && y[0..] == y;
    while a[i] == b[i] && a[i] != NUL
      invariant i <= |x| && i <= |y|
      invariant Compare(x, y) == Compare(x[i..], y[i..])
      decreases |x| - i
    {
      assert i < |x| && i < |y| && x[i..][0] == a[i] && y[i..][0] == b[i];
      assert x[i..][1..] == x[i + 1..] && y[i..][1..] == y[i + 1..];
      i := i + 1;
    }
    assert i < |x| ==> x[i..][0] == a[i];
    assert i < |y| ==> y[i..][0] == b[i];
    var p: int, q: int := a[i], b[i];
    return if p == q then 0 else p - q;
  }

  /** `a` comes before `b` in a dictionary: after a common prefix `a` ends or has the smaller byte. */
  ghost predicate Before(a: seq<byte>, b: seq<byte>) {
    exists k :: 0 <= k <= |a| && k < |b| && a[..k] == b[..k] && (k == |a| || a[k] < b[k])
  }

  lemma BeforeTail(a: seq<byte>, b: seq<byte>)
    requires a != [] && b != [] && a[0] == b[0]
    ensures Before(a, b) <==> Before(a[1..], b[1..])
  {
    if k :| 0 <= k <= |a| && k < |b| && a[..k] == b[..k] && (k == |a| || a[k] < b[k]) {
      assert k > 0;
      assert a[1..][..k - 1] == a[..k][1..] == b[..k][1..] == b[1..][..k - 1];
    }
    if k :| 0 <= k <= |a[1..]| && k < |b[1..]| && a[1..][..k] == b[1..][..k]
            && (k == |a[1..]| || a[1..][k] < b[1..][k]) {
      assert a[..k + 1] == [a[0]] + a[1..][..k] == [b[0]] + b[1..][..k] == b[..k + 1];
    }
  }

  /** `strcmp` decides the dictionary order: negative, zero or positive as the first text comes
      before the second, equals it, or comes after it. */
  lemma {:induction false} CompareIsOrder(a: seq<byte>, b: seq<byte>)
    requires Plain(a) && Plain(b)
    ensures Compare(a, b) < 0 <==> Before(a, b)
    ensures Compare(a, b) == 0 <==> a == b
    ensures Compare(b, a) == -Compare(a, b)
    decreases |a|
  {
    if a == [] || b == [] || a[0] != b[0] {
      assert a[..0] == b[..0];
      forall k | 0 < k <= |a| && k < |b| ensures a[..k] != b[..k] {
        assert a[..k][0] == a[0] && b[..k][0] == b[0];
      }
    } else {
      CompareIsOrder(a[1..], b[1..]);
      BeforeTail(a, b);
      assert a == [a[0]] + a[1..] && b == [b[0]] + b[1..];
    }
  }

  function ByteAt(text: seq<byte>, k: nat): int {
    if k < |text| then text[k] else NUL
  }

  /** The result is the difference of the first bytes that differ, a text ending in a NUL. */
  lemma {:induction false} CompareIsDifference(a: seq<byte>, b: seq<byte>, k: nat)
    requires Plain(a) && Plain(b) && k <= |a| && k <= |b| && a[..k] == b[..k]
    requires ByteAt(a, k) != ByteAt(b, k) || k == |a| == |b|
    ensures Compare(a, b) == ByteAt(a, k) - ByteAt(b, k)
  {
    if k == 0 {
    } else {
      assert a[0] == a[..k][0] == b[..k][0] == b[0];
      assert a[1..][..k - 1] == a[..k][1..] == b[..k][1..] == b[1..][..k - 1];
      CompareIsDifference(a[1..], b[1..], k - 1);
    }
  }

  lemma {:induction false} CompareTransitive(a: seq<byte>, b: seq<byte>, c: seq<byte>)
    requires Plain(a) && Plain(b) && Plain(c) && Compare(a, b) < 0 && Compare(b, c) < 0
    ensures Compare(a, c) < 0
    decreases |a|
  {
    if a != [] && b != [] && c != [] && a[0] == b[0] == c[0] {
      CompareTransitive(a[1..], b[1..], c[1..]);
    }
  }

  // ---------------------------------------------------------------- reversal

  function Reversed(text: seq<byte>): (r: seq<byte>)
    ensures |r| == |text| && forall i :: 0 <= i < |r| ==> r[i] == text[|text| - 1 - i]
  {
    seq(|text|, i requires 0 <= i < |text| => text[|text| - 1 - i])
  }

  /** The loop of `str_reverse`: swaps from both ends; the bytes from `n` on stay. */
  method SwapEnds(a: array<byte>, n: nat)
    requires n <= a.Length
    modifies a
    ensures forall k :: 0 <= k < n ==> a[k] == old(a[n - 1 - k])
    ensures forall k :: n <= k < a.Length ==> a[k] == old(a[k])
  {
    var i := 0;
    while i < n / 2
      invariant i <= n / 2
      invariant forall k :: 0 <= k < i ==> a[k] == old(a[n - 1 - k]) && a[n - 1 - k] == old(a[k])
      invariant forall k :: i <= k < n - i ==> a[k] == old(a[k])
      invariant forall k :: n <= k < a.Length ==> a[k] == old(a[k])
    {
      var tmp := a[n - 1 - i];
      a[n - 1 - i] := a[i];
      a[i] := tmp;
      i := i + 1;
    }
  }

  method StrReverse(a: array<byte>)
    requires IsString(a, 0)
    modifies a
    ensures IsString(a, 0) && Text(a, 0) == Reversed(old(Text(a, 0)))
    ensures a[|Text(a, 0)|..] == old(a[|Text(a, 0)|..])
  {
    hide Text, IsString;
    ghost var text, was := Text(a, 0), a[..];
    TextBytes(a, 0);
    var n := StrLen(a, 0);
    SwapEnds(a, n);
    ReversedInside(a[..], was, text);
    assert a[0..] == a[..];
    Terminated(a, 0, Reversed(text), was[n + 1..]);
    assert a[n..] == a[..][n..] && was[n..] == old(a[n..]);
  }

  lemma ReversedInside(now: seq<byte>, was: seq<byte>, text: seq<byte>)
    requires |now| == |was| && |text| < |was| && was[|text|] == NUL
    requires forall k :: 0 <= k < |text| ==> was[k] == text[k]
    requires forall k :: 0 <= k < |text| ==> now[k] == was[|text| - 1 - k]
    requires forall k :: |text| <= k < |was| ==> now[k] == was[k]
    ensures now == Reversed(text) + [NUL] + was[|text| + 1..]
    ensures now[|text|..] == was[|text|..]
  {
  }

  method StrIsPalindrome(a: array<byte>) returns (yes: bool)
    requires IsString(a, 0)
    ensures yes <==> Reversed(Text(a, 0)) == Text(a, 0)
  {
    ghost var text := Text(a, 0);
    TextBytes(a, 0);
    var n := StrLen(a, 0);
    hide Text, IsString;
    for i := 0 to n / 2
      invariant forall k :: 0 <= k < i ==> text[k] == text[n - 1 - k]
    {
      if a[i] != a[n - 1 - i] {
        assert Reversed(text)[i] != text[i];
        return false;
      }
    }
    forall k | 0 <= k < n ensures Reversed(text)[k] == text[k] {
      assert k < n / 2 || n - 1 - k < n / 2 || k == n - 1 - k;
    }
    return true;
  }
}
