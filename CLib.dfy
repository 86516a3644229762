/**
 * Models of the C library functions the server relies on, over `char` sequences
 * (one `char` stands for one byte of a C buffer):
 * the string a `char *` denotes (strlen, strdup), atoi, and the decimal
 * conversions `%d` and `%lu` of snprintf.
 */
module CLib {

  const NUL: char := '\0'

  /** Position of the first NUL at or after `i`, or the end of `b`: where strlen stops. */
  function NulFrom(b: seq<char>, i: nat): (k: nat)
    requires i <= |b|
    ensures i <= k <= |b|
    ensures forall j :: i <= j < k ==> b[j] != NUL
    ensures k < |b| ==> b[k] == NUL
    decreases |b| - i
  {
    if i < |b| && b[i] != NUL then NulFrom(b, i + 1) else i
  }

  /** strlen's stopping point is the only one that fits its description. */
  lemma NulFromUnique(b: seq<char>, i: nat, k: nat)
    requires i <= k <= |b|
    requires forall j :: i <= j < k ==> b[j] != NUL
    requires k < |b| ==> b[k] == NUL
    ensures NulFrom(b, i) == k
  {
  }

  /** The C string that starts at index `i` of buffer `b` (what `b + i` points to). */
  function CStrAt(b: seq<char>, i: nat): (r: string)
    requires i <= |b|
    ensures i + |r| <= |b| && r == b[i..i + |r|]
    ensures NUL !in r
    ensures i + |r| < |b| ==> b[i + |r|] == NUL
  {
    var k := NulFrom(b, i);
    assert forall j :: 0 <= j < k - i ==> b[i..k][j] == b[i + j];
    b[i..k]
  }

  /** The C string stored in `s`: every character before the first NUL (strlen, strdup). */
  function CStr(s: seq<char>): (r: string)
    ensures |r| <= |s| && r == s[..|r|]
    ensures NUL !in r
    ensures |r| < |s| ==> s[|r|] == NUL
  {
    CStrAt(s, 0)
  }

  /** `str` sits at index `i` of `b`, followed by its NUL terminator. */
  predicate Terminated(b: seq<char>, i: nat, str: string)
  {
    i + |str| < |b| && b[i..i + |str|] == str && b[i + |str|] == NUL && NUL !in str
  }

  /** A NUL-free stretch that ends at a NUL (or at the end) is the C string there. */
  lemma CStrAtOfStretch(b: seq<char>, i: nat, k: nat)
    requires i <= k <= |b| && NUL !in b[i..k] && (k < |b| ==> b[k] == NUL)
    ensures CStrAt(b, i) == b[i..k]
  {
    forall j | i <= j < k ensures b[j] != NUL {
      assert b[j] == b[i..k][j - i];
    }
    NulFromUnique(b, i, k);
  }

  /** A NUL-free string is its own C string. */
  lemma CStrOfText(t: string)
    requires NUL !in t
    ensures CStr(t) == t
  {
    CStrAtOfStretch(t, 0, |t|);
  }

  lemma TerminatedIsCStr(b: seq<char>, i: nat, str: string)
    requires Terminated(b, i, str)
    ensures CStrAt(b, i) == str
  {
    CStrAtOfStretch(b, i, i + |str|);
  }

  /** A terminated string survives any change that leaves its characters and its NUL alone. */
  lemma TerminatedFrame(b: seq<char>, b': seq<char>, i: nat, str: string)
    requires Terminated(b, i, str) && |b'| == |b|
    requires forall j :: i <= j <= i + |str| ==> b'[j] == b[j]
    ensures Terminated(b', i, str)
  {
    assert b'[i..i + |str|] == b[i..i + |str|];
  }

  /** Concatenation is associative (stated once, so that large proofs need not rediscover it). */
  lemma AppendAssoc(a: string, b: string, c: string)
    ensures a + (b + c) == a + b + c
  {
  }

  /** The front of a concatenation. */
  lemma TakeFront(a: string, b: string)
    ensures (a + b)[0..|a|] == a && (a + b)[..|a|] == a
  {
  }

  /** A slice of a slice is a slice of the original. */
  lemma SliceOfSlice(b: seq<char>, p: nat, n: nat, x: nat, y: nat)
    requires p <= n <= |b| && x <= y <= n - p
    ensures b[p..n][x..y] == b[p + x..p + y]
  {
    var l, r := b[p..n][x..y], b[p + x..p + y];
    forall k | 0 <= k < |l| ensures l[k] == r[k] {
      assert l[k] == b[p..n][x + k] == b[p + x + k];
    }
  }

  /** In a NUL-ended buffer every C string ends at a NUL inside the buffer. */
  lemma CStrAtInBuffer(b: seq<char>, p: nat)
    requires 0 < |b| && b[|b| - 1] == NUL && p < |b|
    ensures p + |CStrAt(b, p)| < |b|
  {
  }

  /** Advancing a pointer inside a C string yields the corresponding suffix. */
  lemma CStrAtSuffix(b: seq<char>, p: nat, a: nat)
    requires p <= |b| && a <= |CStrAt(b, p)|
    ensures p + a <= |b| && CStrAt(b, p + a) == CStrAt(b, p)[a..]
  {
    var k := NulFrom(b, p);
    NulFromUnique(b, p + a, k);
  }

  // ---- C int -------------------------------------------------------------

  /** The range of a 32-bit C `int`. */
  const IntMin: int := -0x8000_0000
  const IntMax: int := 0x7fff_ffff

  /** A value of C's 32-bit `int`. */
  type CInt = x: int | IntMin <= x <= IntMax

  predicate FitsInt(v: int)
  {
    IntMin <= v <= IntMax
  }

  // ---- atoi ----------------------------------------------------------------

  /** The characters C's isspace accepts in the "C" locale. */
  predicate IsSpace(c: char)
  {
    c == ' ' || c == '\t' || c == '\n' || c == '\U{B}' || c == '\U{C}' || c == '\r'
  }

  predicate IsDigit(c: char)
  {
    '0' <= c <= '9'
  }

  function DigitValue(c: char): nat
    requires IsDigit(c)
  {
    c as int - '0' as int
  }

  /** `s` with its leading white space removed. */
  function SkipSpaces(s: string): (r: string)
    ensures |r| <= |s| && r == s[|s| - |r|..]
    ensures forall j :: 0 <= j < |s| - |r| ==> IsSpace(s[j])
    ensures r != [] ==> !IsSpace(r[0])
  {
    if s != [] && IsSpace(s[0]) then SkipSpaces(s[1..]) else s
  }

  /** The longest prefix of `s` made of decimal digits. */
  function DigitRun(s: string): (r: string)
    ensures |r| <= |s| && r == s[..|r|]
    ensures forall j :: 0 <= j < |r| ==> IsDigit(r[j])
    ensures |r| < |s| ==> !IsDigit(s[|r|])
  {
    if s != [] && IsDigit(s[0]) then [s[0]] + DigitRun(s[1..]) else []
  }

  /** The number a string of decimal digits spells, most significant digit first. */
  function DigitsValue(d: string): nat
    requires forall j :: 0 <= j < |d| ==> IsDigit(d[j])
  {
    if d == [] then 0 else DigitsValue(d[..|d| - 1]) * 10 + DigitValue(d[|d| - 1])
  }

  /**
   * C's atoi: skip white space, read an optional sign, then as many digits as follow;
   * 0 when no digit follows. The mathematical value is returned: a value outside
   * `int` is undefined behaviour in C, and callers check for it.
   */
  function Atoi(s: string): int
  {
    var t := SkipSpaces(s);
    if t != [] && t[0] == '-' then 0 - DigitsValue(DigitRun(t[1..]))
    else if t != [] && t[0] == '+' then DigitsValue(DigitRun(t[1..]))
    else DigitsValue(DigitRun(t))
  }

  lemma {:induction false} SkipSpacesAppend(ws: string, s: string)
    requires forall j :: 0 <= j < |ws| ==> IsSpace(ws[j])
    ensures SkipSpaces(ws + s) == SkipSpaces(s)
  {
    if ws != [] {
      assert (ws + s)[0] == ws[0] && IsSpace(ws[0]);
      assert (ws + s)[1..] == ws[1..] + s;
      SkipSpacesAppend(ws[1..], s);
    } else {
      assert ws + s == s;
    }
  }

  /** Leading white space does not change what atoi reads. */
  lemma AtoiSkipsSpaces(ws: string, s: string)
    requires forall j :: 0 <= j < |ws| ==> IsSpace(ws[j])
    ensures Atoi(ws + s) == Atoi(s)
  {
    SkipSpacesAppend(ws, s);
  }

  /** No digit after the optional sign: atoi yields 0. */
  lemma AtoiWithoutDigits(s: string)
    requires var t := SkipSpaces(s);
             var u := if t != [] && (t[0] == '-' || t[0] == '+') then t[1..] else t;
             u == [] || !IsDigit(u[0])
    ensures Atoi(s) == 0
  {
  }

  // ---- %d and %lu ----------------------------------------------------------

  function Digit(d: nat): (c: char)
    requires d < 10
    ensures IsDigit(c) && DigitValue(c) == d
  {
    (d + '0' as int) as char
  }

  /** `%lu`: the decimal numeral of `n`, without leading zeros. */
  function DecimalNat(n: nat): (r: string)
    ensures r != [] && forall j :: 0 <= j < |r| ==> IsDigit(r[j])
    ensures r[0] == '0' ==> n == 0
  {
    if n < 10 then [Digit(n)] else DecimalNat(n / 10) + [Digit(n % 10)]
  }

  /** `%d`: the decimal numeral of `n`, with a minus sign when negative. */
  function Decimal(n: int): (r: string)
    ensures r != [] && (IsDigit(r[|r| - 1]))
    ensures n >= 0 ==> r == DecimalNat(n)
  {
    if n < 0 then "-" + DecimalNat(-n) else DecimalNat(n)
  }

  lemma {:induction false} DigitsValueOfDecimal(n: nat)
    ensures DigitsValue(DecimalNat(n)) == n
  {
    if n >= 10 {
      var d := DecimalNat(n);
      assert d[..|d| - 1] == DecimalNat(n / 10);
      DigitsValueOfDecimal(n / 10);
    }
  }

  lemma {:induction false} DigitRunOfDigits(d: string, rest: string)
    requires forall j :: 0 <= j < |d| ==> IsDigit(d[j])
    requires rest == [] || !IsDigit(rest[0])
    ensures DigitRun(d + rest) == d
  {
    if d != [] {
      assert (d + rest)[1..] == d[1..] + rest;
      DigitRunOfDigits(d[1..], rest);
    }
  }

  /** Dropping the first character of a concatenation. */
  lemma DropFirst(x: string, s: string)
    requires x != []
    ensures (x + s)[1..] == x[1..] + s
  {
  }

  /** atoi of a numeral without sign, followed by a non-digit. */
  lemma AtoiOfDigits(d: string, rest: string)
    requires d != [] && forall j :: 0 <= j < |d| ==> IsDigit(d[j])
    requires rest == [] || !IsDigit(rest[0])
    ensures Atoi(d + rest) == DigitsValue(d)
  {
    var t := d + rest;
    assert !IsSpace(t[0]) && t[0] != '-' && t[0] != '+' by {
      assert t[0] == d[0] && IsDigit(d[0]);
    }
    assert SkipSpaces(t) == t;
    assert Atoi(t) == DigitsValue(DigitRun(t));
    DigitRunOfDigits(d, rest);
  }

  /** atoi of a minus sign and a numeral, followed by a non-digit. */
  lemma AtoiOfNegative(d: string, rest: string)
    requires d != [] && forall j :: 0 <= j < |d| ==> IsDigit(d[j])
    requires rest == [] || !IsDigit(rest[0])
    ensures Atoi("-" + d + rest) == 0 - DigitsValue(d)
  {
    var t := "-" + (d + rest);
    assert t[0] == '-' && !IsSpace(t[0]);
    assert SkipSpaces(t) == t;
    assert Atoi(t) == 0 - DigitsValue(DigitRun(t[1..]));
    DropFirst("-", d + rest);
    DigitRunOfDigits(d, rest);
    AppendAssoc("-", d, rest);
  }

  /**
   * atoi reads back what `%d` writes, whatever non-digit text follows the numeral
   * (for instance the "\r\n" that ends a header line).
   */
  lemma AtoiOfDecimal(n: int, rest: string)
    requires rest == [] || !IsDigit(rest[0])
    ensures Atoi(Decimal(n) + rest) == n
  {
    if n < 0 {
      DigitsValueOfDecimal(-n);
      AtoiOfNegative(DecimalNat(-n), rest);
    } else {
      DigitsValueOfDecimal(n);
      AtoiOfDigits(DecimalNat(n), rest);
    }
  }
}
