/**
 * C-string vocabulary shared by the whole model: the C-locale character
 * classes of <ctype.h>, the case-insensitive comparisons of <strings.h> and
 * the substring predicates of <string.h>, stated over `string` values that
 * stand for NUL-terminated C strings (the terminator itself is not stored).
 */
module CStr {

  datatype Option<T> = None | Some(value: T)

  /** A byte of a binary payload. */
  newtype byte = x: int | 0 <= x < 256

  /** A C string: no embedded NUL (the terminator is implicit). */
  predicate NoNul(s: string) {
    forall i :: 0 <= i < |s| ==> s[i] != '\0'
  }

  /** Seven-bit text without NUL: the domain on which the <ctype.h> calls of the source are defined. */
  predicate Ascii(s: string) {
    forall i :: 0 <= i < |s| ==> 0 < s[i] as int < 128
  }

  predicate IsDigit(c: char) { '0' <= c <= '9' }
  predicate IsLower(c: char) { 'a' <= c <= 'z' }
  predicate IsUpper(c: char) { 'A' <= c <= 'Z' }
  predicate IsAlnum(c: char) { IsDigit(c) || IsLower(c) || IsUpper(c) }
  predicate IsXDigit(c: char) { IsDigit(c) || 'a' <= c <= 'f' || 'A' <= c <= 'F' }
  /** isprint in the C locale: space through tilde. */
  predicate IsPrint(c: char) { ' ' <= c <= '~' }

  function ToLower(c: char): (r: char)
    ensures IsUpper(c) ==> r as int == c as int + 32
    ensures !IsUpper(c) ==> r == c
  {
    if IsUpper(c) then (c as int + 32) as char else c
  }

  /** Two strings of equal length that agree up to ASCII case. */
  predicate CaseEq(a: string, b: string) {
    |a| == |b| && forall i :: 0 <= i < |a| ==> ToLower(a[i]) == ToLower(b[i])
  }

  /**
   * strncasecmp(s, t, n) == 0 for C strings s and t: the first n characters
   * agree up to case, where a string that ends early contributes its NUL.
   */
  predicate NCaseEq(s: string, t: string, n: nat) {
    (n <= |s| && n <= |t| && CaseEq(s[..n], t[..n]))
    || (|s| == |t| < n && CaseEq(s, t))
  }

  /** strncasecmp(s, key, |key|) == 0: s starts with key, up to case. */
  lemma NCaseEqFullKey(s: string, key: string)
    ensures NCaseEq(s, key, |key|) <==> (|key| <= |s| && CaseEq(s[..|key|], key))
  {
    assert key[..|key|] == key;
  }

  predicate IsPrefix(p: string, s: string) {
    |p| <= |s| && s[..|p|] == p
  }

  /** The needle occurs in s at position j. */
  predicate OccursAt(s: string, needle: string, j: int) {
    0 <= j && j + |needle| <= |s| && s[j..j + |needle|] == needle
  }

  /** What follows a in a prefix a + b of s occurs in s just after a. */
  lemma OccursAfterPrefix(a: string, b: string, s: string)
    requires IsPrefix(a + b, s)
    ensures OccursAt(s, b, |a|)
  {
    assert s[..|a| + |b|] == a + b;
    assert s[|a|..|a| + |b|] == s[..|a| + |b|][|a|..];
  }

  /** A prefix stays a prefix behind a common head and before any tail. */
  lemma PrefixInside(x: string, p: string, q: string, y: string)
    requires IsPrefix(p, q)
    ensures IsPrefix(x + p, x + q + y)
  {
    assert (x + q + y)[..|x| + |p|] == x + q[..|p|];
  }

  /** strstr(s, needle) != NULL. */
  predicate Contains(s: string, needle: string) {
    exists j :: 0 <= j <= |s| - |needle| && OccursAt(s, needle, j)
  }

  /** The needle occurs in s at position j, up to case. */
  predicate CaseOccursAt(s: string, needle: string, j: int) {
    0 <= j && j + |needle| <= |s| && CaseEq(s[j..j + |needle|], needle)
  }

  /** strcasestr(s, needle) != NULL. */
  predicate CaseContains(s: string, needle: string) {
    exists j :: 0 <= j <= |s| - |needle| && CaseOccursAt(s, needle, j)
  }

  /** The C string held by a buffer: everything before its first NUL. */
  function CString(s: string): (r: string)
    ensures IsPrefix(r, s) && NoNul(r)
    ensures |r| < |s| ==> s[|r|] == '\0'
  {
    if s == [] || s[0] == '\0' then [] else [s[0]] + CString(s[1..])
  }

  lemma CStringOfNoNul(s: string)
    requires NoNul(s)
    ensures CString(s) == s
  {
  }

  /** The text of a byte string, one char per byte. */
  function Chars(b: seq<byte>): (r: string)
    ensures |r| == |b|
    ensures forall i :: 0 <= i < |b| ==> r[i] as int == b[i] as int
  {
    if b == [] then [] else [b[0] as int as char] + Chars(b[1..])
  }

  /** The bytes of a string, one per character: its code modulo 256, as a cast to char keeps it. */
  function Bytes(s: string): (r: seq<byte>)
    ensures |r| == |s|
    ensures forall i :: 0 <= i < |s| ==> r[i] as int == s[i] as int % 256
  {
    if s == [] then [] else [(s[0] as int % 256) as byte] + Bytes(s[1..])
  }

  /** Decimal rendering of an integer, as printf's "%d" writes it. */
  function Decimal(n: int): (r: string)
    ensures |r| > 0
    ensures n >= 0 ==> forall i :: 0 <= i < |r| ==> IsDigit(r[i])
    decreases if n < 0 then 1 - n else n
  {
    if n < 0 then "-" + Decimal(-n)
    else if n < 10 then [('0' as int + n) as char]
    else Decimal(n / 10) + [('0' as int + n % 10) as char]
  }

  /** The number a string of decimal digits denotes. */
  function DigitsValue(s: string): int
    requires forall i :: 0 <= i < |s| ==> IsDigit(s[i])
  {
    if s == [] then 0 else 10 * DigitsValue(s[..|s| - 1]) + (s[|s| - 1] as int - '0' as int)
  }

  /** A number below 1000 is written with at most three characters. */
  lemma DecimalBelowThousand(n: int)
    requires 0 <= n < 1000
    ensures |Decimal(n)| <= 3
  {
    if n >= 10 {
      assert |Decimal(n / 10)| <= 2;
    }
  }

  /**
   * The digits of a non-negative number denote that number, with no leading
   * zero; a negative number is a minus sign and the digits of its magnitude.
   */
  lemma {:induction false} DecimalValue(n: int)
    ensures n >= 0 ==> DigitsValue(Decimal(n)) == n
    ensures n > 0 ==> Decimal(n)[0] != '0'
    ensures n < 0 ==> Decimal(n)[0] == '-' && Decimal(n)[1..] == Decimal(-n) && DigitsValue(Decimal(-n)) == -n
    decreases if n < 0 then 1 - n else n
  {
    if n < 0 {
      DecimalValue(-n);
    } else if n >= 10 {
      DecimalValue(n / 10);
      var r := Decimal(n);
      assert r[..|r| - 1] == Decimal(n / 10);
    }
  }

  /** The renderings of the status codes the server writes besides those of its table. */
  lemma StatusCodeDigits()
    ensures Decimal(307) == "307" && Decimal(500) == "500"
  {
    assert Decimal(3) == "3" && Decimal(30) == "30";
    assert Decimal(5) == "5" && Decimal(50) == "50";
  }
}
