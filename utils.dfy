/**
 * The text-scanning primitives of src/utils.c.  The scanners that walk a
 * pointer are methods with loops, proved against specification functions;
 * the routines that write through a buffer (`decode_url`,
 * `change_dots_to_underscore`, `ts_concatenate_path_filename`) work in place
 * on an `array<char>`.
 */
module Utils {
  import opened CStr

  // ---------------------------------------------------------------------------
  // find_delimiter

  /**
   * What find_delimiter reports: the number of characters before the
   * delimiter (`length`) and the position `*endptr` is left at (`next`).
   */
  datatype Delimited = Delimited(length: nat, next: nat)

  /**
   * The matching automaton of find_delimiter over t, at position i with cur
   * delimiter characters matched.  A mismatch restarts the match at
   * delimiters[0] only.  Without a complete match it reports the whole length
   * and leaves the end pointer one past the terminating NUL.
   */
  function DelimScan(t: string, d: string, i: nat, cur: nat): (r: Delimited)
    requires 0 < |d| && i <= |t| && cur < |d| && cur <= i
    ensures (r.length == |t| && r.next == |t| + 1) || (r.next == r.length + |d| <= |t|)
    decreases |t| - i
  {
    if i == |t| then Delimited(|t|, |t| + 1)
    else if t[i] == d[cur] then
      if cur + 1 == |d| then Delimited(i + 1 - |d|, i + 1)
      else DelimScan(t, d, i + 1, cur + 1)
    else DelimScan(t, d, i + 1, if t[i] == d[0] then 1 else 0)
  }

  /**
   * find_delimiter started at position `start` of the buffer s; positions
   * are absolute.  With an empty delimiter nothing is scanned and the start
   * is reported (the source then leaves *endptr as it was).
   */
  function Delim(s: string, start: nat, d: string): (r: Delimited)
    requires start <= |s|
    ensures 0 < |d| ==>
      (r.length == |s| - start && r.next == |s| + 1)
      || (r.next == start + r.length + |d| <= |s|)
  {
    if |d| == 0 then Delimited(0, start)
    else
      var r := DelimScan(s[start..], d, 0, 0);
      Delimited(r.length, start + r.next)
  }

  /** find_delimiter: scans from `start` for the first complete occurrence of d. */
  method FindDelimiter(s: string, start: nat, d: string) returns (r: Delimited)
    requires start <= |s|
    ensures r == Delim(s, start, d)
  {
    if |d| == 0 {
      return Delimited(0, start);
    }
    ghost var t := s[start..];
    var i, cur, matchLength := start, 0, 0;
    while i < |s|
      invariant start <= i <= |s| && cur < |d| && cur <= i - start
      invariant matchLength == i - start
      invariant DelimScan(t, d, i - start, cur) == DelimScan(t, d, 0, 0)
    {
      matchLength := matchLength + 1;
      if s[i] == d[cur] {
        cur := cur + 1;
        if cur == |d| {
          matchLength := matchLength - cur;
          return Delimited(matchLength, i + 1);
        }
      } else {
        cur := if s[i] == d[0] then 1 else 0;
      }
      i := i + 1;
    }
    return Delimited(matchLength, i + 1);
  }

  /** The leftmost position at which d occurs in t at or after p. */
  function FirstOccurrenceFrom(t: string, d: string, p: nat): (r: Option<nat>)
    requires p <= |t| + 1
    ensures r.Some? ==> p <= r.value && OccursAt(t, d, r.value)
    ensures r.Some? ==> forall q :: p <= q < r.value ==> !OccursAt(t, d, q)
    ensures r.None? ==> forall q :: p <= q ==> !OccursAt(t, d, q)
    decreases |t| + 1 - p
  {
    if p + |d| > |t| then None
    else if t[p..p + |d|] == d then Some(p)
    else FirstOccurrenceFrom(t, d, p + 1)
  }

  /** The leftmost occurrence of d in t. */
  function FirstOccurrence(t: string, d: string): Option<nat> {
    FirstOccurrenceFrom(t, d, 0)
  }

  /** The delimiter never restarts inside itself: delimiters[0] does not recur. */
  predicate SingleStart(d: string) {
    forall k :: 1 <= k < |d| ==> d[k] != d[0]
  }

  /** What an exact delimiter search reports on t. */
  function ExactDelim(t: string, d: string): Delimited {
    match FirstOccurrence(t, d)
    case Some(p) => Delimited(p, p + |d|)
    case None => Delimited(|t|, |t| + 1)
  }

  lemma {:induction false} DelimScanExact(t: string, d: string, i: nat, cur: nat)
    requires 0 < |d| && SingleStart(d) && i <= |t| && cur < |d| && cur <= i
    requires t[i - cur..i] == d[..cur]
    requires forall p :: 0 <= p < i - cur ==> !OccursAt(t, d, p)
    ensures DelimScan(t, d, i, cur) == ExactDelim(t, d)
    decreases |t| - i
  {
    if i == |t| {
      assert forall p :: 0 <= p ==> !OccursAt(t, d, p);
      assert FirstOccurrence(t, d).None?;
    } else if t[i] == d[cur] {
      ExtendMatch(t, d, i, cur);
      if cur + 1 == |d| {
        CompleteMatch(t, d, i, cur);
      } else {
        DelimScanExact(t, d, i + 1, cur + 1);
      }
    } else {
      var cur' := if t[i] == d[0] then 1 else 0;
      Mismatch(t, d, i, cur);
      DelimScanExact(t, d, i + 1, cur');
    }
  }

  /** After a mismatch the automaton's restart loses no occurrence. */
  lemma Mismatch(t: string, d: string, i: nat, cur: nat)
    requires 0 < |d| && SingleStart(d) && i < |t| && cur < |d| && cur <= i
    requires t[i - cur..i] == d[..cur] && t[i] != d[cur]
    requires forall p :: 0 <= p < i - cur ==> !OccursAt(t, d, p)
    ensures var cur' := if t[i] == d[0] then 1 else 0;
      && t[i + 1 - cur'..i + 1] == d[..cur']
      && forall p :: 0 <= p < i + 1 - cur' ==> !OccursAt(t, d, p)
  {
    var cur' := if t[i] == d[0] then 1 else 0;
    forall p | i - cur <= p < i + 1 - cur'
      ensures !OccursAt(t, d, p)
    {
      MismatchRulesOut(t, d, i, cur, p);
    }
    if cur' == 1 {
      assert t[i + 1 - cur'..i + 1] == [t[i]];
    }
  }

  /** The last delimiter character matched at i: the first occurrence ends there. */
  lemma CompleteMatch(t: string, d: string, i: nat, cur: nat)
    requires 0 < |d| && i < |t| && cur + 1 == |d| && cur <= i
    requires t[i - cur..i + 1] == d[..cur + 1] && t[i] == d[cur]
    requires forall p :: 0 <= p < i - cur ==> !OccursAt(t, d, p)
    ensures DelimScan(t, d, i, cur) == Delimited(i - cur, i + 1) == ExactDelim(t, d)
  {
    assert d[..cur + 1] == d;
    FirstOccurrenceAt(t, d, i - cur);
  }

  /** A matched prefix of the delimiter grows by one matching character. */
  lemma ExtendMatch(t: string, d: string, i: nat, cur: nat)
    requires i < |t| && cur < |d| && cur <= i && t[i - cur..i] == d[..cur] && t[i] == d[cur]
    ensures t[i - cur..i + 1] == d[..cur + 1]
  {
    assert t[i - cur..i + 1] == t[i - cur..i] + [t[i]];
    assert d[..cur + 1] == d[..cur] + [d[cur]];
  }

  /**
   * A mismatch at i after cur matched characters rules out an occurrence
   * starting at any of those characters, and at i itself unless t[i]
   * starts the delimiter.
   */
  lemma MismatchRulesOut(t: string, d: string, i: nat, cur: nat, p: nat)
    requires 0 < |d| && SingleStart(d) && i < |t| && cur < |d| && cur <= i
    requires t[i - cur..i] == d[..cur] && t[i] != d[cur]
    requires i - cur <= p <= i && (p == i ==> t[i] != d[0])
    ensures !OccursAt(t, d, p)
  {
    if p + |d| <= |t| {
      if p == i - cur {
        assert t[p..p + |d|][cur] == t[i];
      } else if p < i {
        assert t[p..p + |d|][0] == t[p];
        assert t[i - cur..i][p - (i - cur)] == t[p];
      } else {
        assert t[p..p + |d|][0] == t[i];
      }
    }
  }

  /**
   * For a delimiter whose first character does not recur in it (all three
   * delimiters the server passes: "\r\n", " " and ":"), find_delimiter is an
   * exact search: the length before the first occurrence and an end pointer
   * just past it, or the remaining length and an end pointer past the NUL.
   */
  lemma DelimIsExact(s: string, start: nat, d: string)
    requires start <= |s| && 0 < |d| && SingleStart(d)
    ensures Delim(s, start, d) == var e := ExactDelim(s[start..], d); Delimited(e.length, start + e.next)
  {
    DelimScanExact(s[start..], d, 0, 0);
  }

  lemma {:induction false} DelimScanFound(t: string, d: string, i: nat, cur: nat)
    requires 0 < |d| && i <= |t| && cur < |d| && cur <= i && t[i - cur..i] == d[..cur]
    ensures var r := DelimScan(t, d, i, cur); r.next <= |t| ==> t[r.length..r.next] == d
    decreases |t| - i
  {
    if i < |t| {
      var r := DelimScan(t, d, i, cur);
      if t[i] == d[cur] {
        ExtendMatch(t, d, i, cur);
        if cur + 1 < |d| {
          DelimScanFound(t, d, i + 1, cur + 1);
          assert r == DelimScan(t, d, i + 1, cur + 1);
        } else {
          assert d[..cur + 1] == d;
          assert r == Delimited(i - cur, i + 1);
        }
      } else {
        var cur' := if t[i] == d[0] then 1 else 0;
        assert t[i + 1 - cur'..i + 1] == d[..cur'];
        DelimScanFound(t, d, i + 1, cur');
        assert r == DelimScan(t, d, i + 1, cur');
      }
    }
  }

  /** When find_delimiter finds the delimiter, it lies just before the end pointer. */
  lemma DelimFound(s: string, start: nat, d: string)
    requires start <= |s| && 0 < |d|
    ensures var r := Delim(s, start, d); r.next <= |s| ==> s[start + r.length..r.next] == d
  {
    DelimScanFound(s[start..], d, 0, 0);
  }

  /**
   * Where the delimiter's first character does not appear between the start
   * and an occurrence at p, find_delimiter stops exactly there.
   */
  lemma DelimAt(s: string, start: nat, d: string, p: nat)
    requires 0 < |d| && SingleStart(d) && start <= p && OccursAt(s, d, p)
    requires forall k :: start <= k < p ==> s[k] != d[0]
    ensures Delim(s, start, d) == Delimited(p - start, p + |d|)
  {
    var t := s[start..];
    assert OccursAt(t, d, p - start) by {
      assert t[p - start..p - start + |d|] == s[p..p + |d|];
    }
    forall q | 0 <= q < p - start
      ensures !OccursAt(t, d, q)
    {
      assert t[q] == s[start + q];
      if q + |d| <= |t| {
        assert t[q..q + |d|][0] == t[q];
      }
    }
    FirstOccurrenceAt(t, d, p - start);
    DelimIsExact(s, start, d);
  }

  /** An occurrence with none before it is the first. */
  lemma FirstOccurrenceAt(t: string, d: string, p: nat)
    requires OccursAt(t, d, p) && forall q :: 0 <= q < p ==> !OccursAt(t, d, q)
    ensures FirstOccurrence(t, d) == Some(p)
  {
    var f := FirstOccurrenceFrom(t, d, 0);
    assert f.Some?;
    assert !(f.value < p) && !(p < f.value);
  }

  /**
   * The restart quirk: a delimiter whose first character recurs can be
   * missed.  "aab" occurs in "aaab" at 1, but the automaton reports none.
   */
  lemma DelimRestartQuirk()
    ensures Delim("aaab", 0, "aab") == Delimited(4, 5)
    ensures FirstOccurrence("aaab", "aab") == Some(1)
  {
    assert "aaab"[0..] == "aaab";
    assert DelimScan("aaab", "aab", 2, 2) == DelimScan("aaab", "aab", 3, 1);
    assert "aaab"[0..3] != "aab";
    assert "aaab"[1..4] == "aab";
  }

  // ---------------------------------------------------------------------------
  // strnstr and strstr_last

  /**
   * strnstr as written: the candidate positions are 0 <= i < len - |needle|,
   * so an occurrence ending exactly at len is never tried.
   */
  method StrnstrAsWritten(s: string, needle: string, len: int) returns (r: Option<nat>)
    requires len <= |s|
    ensures |needle| == 0 ==> r == Some(0)
    ensures 0 < |needle| && r.Some? ==>
      r.value < len - |needle| && OccursAt(s, needle, r.value)
      && forall j :: 0 <= j < r.value ==> !OccursAt(s, needle, j)
    ensures 0 < |needle| && r.None? ==> forall j :: 0 <= j < len - |needle| ==> !OccursAt(s, needle, j)
  {
    if |needle| == 0 {
      return Some(0);
    }
    var lastI := len - |needle|;
    var i := 0;
    while i < lastI
      invariant 0 <= i && (i <= lastI || lastI < 0)
      invariant forall j :: 0 <= j < i ==> !OccursAt(s, needle, j)
    {
      if s[i] == needle[0] && s[i..i + |needle|] == needle {
        return Some(i);
      }
      i := i + 1;
    }
    return None;
  }

  /** The discrepancy: "c" lies inside the first 3 characters of "abc", yet strnstr as written misses it. */
  method StrnstrMissesLastPosition() returns (r: Option<nat>)
    ensures r.None? && OccursAt("abc", "c", 2) && 2 + |"c"| <= 3
  {
    assert "abc"[0..1][0] == 'a' && "abc"[1..2][0] == 'b';
    assert forall j :: 0 <= j < 2 ==> !OccursAt("abc", "c", j);
    r := StrnstrAsWritten("abc", "c", 3);
    assert "abc"[2..3] == "c";
  }

  /**
   * strnstr corrected: finds the leftmost occurrence of the needle lying
   * entirely within the first len characters.
   */
  method Strnstr(s: string, needle: string, len: int) returns (r: Option<nat>)
    requires len <= |s|
    ensures |needle| == 0 ==> r == Some(0)
    ensures 0 < |needle| && r.Some? ==>
      r.value + |needle| <= len && OccursAt(s, needle, r.value)
      && forall j :: 0 <= j < r.value ==> !OccursAt(s, needle, j)
    ensures 0 < |needle| && r.None? ==> forall j :: 0 <= j && j + |needle| <= len ==> !OccursAt(s, needle, j)
  {
    if |needle| == 0 {
      return Some(0);
    }
    var lastI := len - |needle|;
    var i := 0;
    while i <= lastI
      invariant 0 <= i && (i <= lastI + 1 || lastI < 0)
      invariant forall j :: 0 <= j < i ==> !OccursAt(s, needle, j)
    {
      if s[i] == needle[0] && s[i..i + |needle|] == needle {
        return Some(i);
      }
      i := i + 1;
    }
    return None;
  }

  /**
   * strstr_last: the rightmost occurrence of a non-empty needle (compared
   * case-sensitively), none when it is absent or longer than the haystack,
   * and the haystack itself (position 0) for an empty needle.
   */
  method StrstrLast(s: string, needle: string) returns (r: Option<nat>)
    ensures |needle| == 0 ==> r == Some(0)
    ensures 0 < |needle| && r.Some? ==>
      OccursAt(s, needle, r.value) && forall j :: r.value < j ==> !OccursAt(s, needle, j)
    ensures r.None? ==> forall j :: !OccursAt(s, needle, j)
  {
    if |needle| == 0 {
      return Some(0);
    }
    if |s| < |needle| {
      return None;
    }
    var p := |s| - |needle|;
    while p != 0
      invariant 0 <= p <= |s| - |needle|
      invariant forall j :: p < j ==> !OccursAt(s, needle, j)
    {
      if s[p] == needle[0] && s[p..p + |needle|] == needle {
        return Some(p);
      }
      p := p - 1;
    }
    if s[..|needle|] == needle {
      return Some(0);
    }
    return None;
  }

  /** The position strstr_last reports, as a function for the callers that only compute. */
  function LastOccurrence(s: string, needle: string): (r: Option<nat>)
    requires 0 < |needle|
    ensures r.Some? ==> OccursAt(s, needle, r.value) && forall j :: r.value < j ==> !OccursAt(s, needle, j)
    ensures r.None? ==> forall j :: !OccursAt(s, needle, j)
  {
    LastOccurrenceBelow(s, needle, |s| + 1)
  }

  function LastOccurrenceBelow(s: string, needle: string, p: nat): (r: Option<nat>)
    requires 0 < |needle| && p <= |s| + 1
    ensures r.Some? ==> r.value < p && OccursAt(s, needle, r.value) && forall j :: r.value < j < p ==> !OccursAt(s, needle, j)
    ensures r.None? ==> forall j :: j < p ==> !OccursAt(s, needle, j)
    ensures forall j :: p <= j ==> (OccursAt(s, needle, j) ==> j + |needle| <= |s|)
  {
    if p == 0 then None
    else if OccursAt(s, needle, p - 1) then Some(p - 1)
    else LastOccurrenceBelow(s, needle, p - 1)
  }

  // ---------------------------------------------------------------------------
  // from_hex and decode_url

  /** The lower-case hexadecimal digit for a value below 16. */
  function HexDigit(k: nat): (c: char)
    requires k < 16
    ensures IsXDigit(c) && !IsUpper(c)
  {
    if k < 10 then ('0' as int + k) as char else ('a' as int + k - 10) as char
  }

  /**
   * from_hex: the value of a hexadecimal digit, whose lower-case spelling is
   * that value's lower-case digit; 0 for any other character.
   */
  function FromHex(c: char): (r: int)
    ensures 0 <= r < 16
    ensures IsXDigit(c) ==> HexDigit(r) == ToLower(c)
    ensures !IsXDigit(c) ==> r == 0
  {
    if IsDigit(c) then c as int - '0' as int
    else if 'a' <= c <= 'f' then c as int - 'a' as int + 10
    else if 'A' <= c <= 'F' then c as int - 'A' as int + 10
    else 0
  }

  /** The character an escape %hl stands for. */
  function HexChar(h: char, l: char): (r: char)
    ensures r as int < 256
  {
    (FromHex(h) * 16 + FromHex(l)) as char
  }

  /** The escape %hl starts s. */
  predicate EscapeAt(s: string) {
    |s| >= 3 && s[0] == '%' && IsXDigit(s[1]) && IsXDigit(s[2])
  }

  /**
   * One pass of percent-decoding (section 2.1 of RFC 3986): each % followed by
   * two hexadecimal digits becomes one character, everything else is copied.
   * A decoded %00 is kept here; a reader of the C string stops at it.
   */
  function Decode(s: string): (r: string)
    ensures |r| <= |s|
  {
    if s == [] then []
    else if EscapeAt(s) then [HexChar(s[1], s[2])] + Decode(s[3..])
    else [s[0]] + Decode(s[1..])
  }

  /** Decoding distributes over a text that is not an escape at its start. */
  lemma DecodeStep(s: string, r: nat)
    requires r < |s|
    ensures EscapeAt(s[r..]) ==> Decode(s[r..]) == [HexChar(s[r + 1], s[r + 2])] + Decode(s[r + 3..])
    ensures !EscapeAt(s[r..]) ==> Decode(s[r..]) == [s[r]] + Decode(s[r + 1..])
  {
    assert s[r..][1..] == s[r + 1..];
    if EscapeAt(s[r..]) {
      assert s[r..][3..] == s[r + 3..];
    }
  }

  /**
   * decode_url(to, from): from holds a C string of n characters.  The decoded
   * text is written to `to`, followed by a NUL.  `to` may be `from` itself:
   * the write position never overtakes the read position, so decoding in
   * place reads only characters not yet overwritten.
   */
  method DecodeUrl(to: array<char>, from: array<char>, n: nat) returns (m: nat)
    requires n < from.Length && n < to.Length
    requires from[n] == '\0' && forall k :: 0 <= k < n ==> from[k] != '\0'
    modifies to
    ensures m == |Decode(old(from[..n]))| && m <= n
    ensures to[..m] == Decode(old(from[..n])) && to[m] == '\0'
  {
    ghost var src := from[..n];
    var r, w := 0, 0;
    while from[r] != '\0'
      invariant 0 <= w <= r <= n && |src| == n
      invariant from[n] == '\0' && forall k :: r <= k < n ==> from[k] == src[k] != '\0'
      invariant to[..w] + Decode(src[r..]) == Decode(src)
      decreases n - r
    {
      ghost var done := to[..w];
      var c, r' := DecodeNext(from, r, n, src);
      to[w] := c;
      assert to[..w] == done;
      assert to[..w + 1] == done + [c];
      AppendDecoded(done, c, Decode(src[r'..]), Decode(src));
      w, r := w + 1, r';
    }
    assert src[r..] == [];
    ghost var result := to[..w];
    to[w] := '\0';
    assert to[..w] == result;
    m := w;
  }

  /**
   * One step of decode_url: the character read at r (an escape's value, or
   * the character itself) and the position after it.
   */
  method DecodeNext(from: array<char>, r: nat, n: nat, ghost src: string) returns (c: char, r': nat)
    requires r < n < from.Length && |src| == n
    requires from[n] == '\0' && forall k :: r <= k < n ==> from[k] == src[k] != '\0'
    ensures r < r' <= n && Decode(src[r..]) == [c] + Decode(src[r'..])
  {
    DecodeStep(src, r);
    if from[r] == '%' && IsXDigit(from[r + 1]) && IsXDigit(from[r + 2]) {
      assert EscapeAt(src[r..]);
      c, r' := HexChar(from[r + 1], from[r + 2]), r + 3;
    } else {
      assert !EscapeAt(src[r..]) by {
        assert src[r..][0] == from[r];
        assert r + 1 < n ==> src[r..][1] == from[r + 1];
        assert r + 2 < n ==> src[r..][2] == from[r + 2];
      }
      c, r' := from[r], r + 1;
    }
  }

  /** Moves one decoded character from the pending text to the written prefix. */
  lemma AppendDecoded(done: string, c: char, tail: string, total: string)
    requires done + ([c] + tail) == total
    ensures (done + [c]) + tail == total
  {
    assert (done + [c]) + tail == done + ([c] + tail);
  }

  /** Percent-encoding of every character: the inverse partner of Decode. */
  function EncodeAll(s: string): (r: string)
    requires forall i :: 0 <= i < |s| ==> s[i] as int < 256
    ensures |r| == 3 * |s|
    ensures forall i :: 0 <= i < |r| ==> r[i] == '%' || (IsXDigit(r[i]) && !IsUpper(r[i]))
  {
    if s == [] then []
    else ['%', HexDigit(s[0] as int / 16), HexDigit(s[0] as int % 16)] + EncodeAll(s[1..])
  }

  /** Decoding undoes encoding: every escape the encoder writes is read back as its character. */
  lemma {:induction false} DecodeEncodeAll(s: string)
    requires forall i :: 0 <= i < |s| ==> s[i] as int < 256
    ensures Decode(EncodeAll(s)) == s
  {
    if s != [] {
      var x := s[0] as int;
      var h, l := HexDigit(x / 16), HexDigit(x % 16);
      assert EncodeAll(s) == ['%', h, l] + EncodeAll(s[1..]);
      HexDigitsRoundTrip(x);
      DecodeEscape(h, l, EncodeAll(s[1..]));
      DecodeEncodeAll(s[1..]);
    }
  }

  /** The two hexadecimal digits of a byte read back as that byte. */
  lemma HexDigitsRoundTrip(x: int)
    requires 0 <= x < 256
    ensures HexChar(HexDigit(x / 16), HexDigit(x % 16)) == x as char
  {
    assert FromHex(HexDigit(x / 16)) == x / 16;
    assert FromHex(HexDigit(x % 16)) == x % 16;
  }

  /** An escape at the front decodes to one character. */
  lemma DecodeEscape(h: char, l: char, t: string)
    requires IsXDigit(h) && IsXDigit(l)
    ensures Decode(['%', h, l] + t) == [HexChar(h, l)] + Decode(t)
  {
    var e := ['%', h, l] + t;
    assert EscapeAt(e);
    assert e[3..] == t;
  }

  /** A text without '%' decodes to itself. */
  lemma {:induction false} DecodeWithoutPercent(s: string)
    requires forall i :: 0 <= i < |s| ==> s[i] != '%'
    ensures Decode(s) == s
  {
    if s != [] {
      assert !EscapeAt(s);
      DecodeWithoutPercent(s[1..]);
    }
  }

  /**
   * Decoding is one pass: "%2568" decodes once to "%68", and only a second
   * decoding turns that into "h".
   */
  lemma DecodeIsOnePass()
    ensures Decode("%2568") == "%68"
    ensures Decode(Decode("%2568")) == "h"
  {
    assert EscapeAt("%2568");
    assert FromHex('2') == 2 && FromHex('5') == 5;
    assert "%2568"[3..] == "68";
    DecodeWithoutPercent("68");
    assert Decode("%2568") == "%68";
    assert EscapeAt("%68");
    assert FromHex('6') == 6 && FromHex('8') == 8;
    assert "%68"[3..] == [];
  }

  // ---------------------------------------------------------------------------
  // change_dots_to_underscore

  /** The characters a host name may hold before sanitising. */
  predicate HostChar(c: char) {
    IsAlnum(c) || c == '-' || c == '.'
  }

  /** Outcome of change_dots_to_underscore: its return code and the string afterwards. */
  datatype Sanitized = Sanitized(rc: int, text: string)

  /**
   * change_dots_to_underscore: dots become '_' from left to right; the first
   * character that is neither alphanumeric, '-' nor '.' stops the scan with
   * -1, leaving the dots before it already replaced.  Otherwise the result is
   * the number of dots.
   */
  function Sanitize(s: string): (r: Sanitized)
    ensures |r.text| == |s| && r.rc <= |s|
    ensures r.rc < 0 ==> r.rc == -1
  {
    if s == [] then Sanitized(0, [])
    else if s[0] == '.' then
      var t := Sanitize(s[1..]);
      Sanitized(if t.rc < 0 then -1 else t.rc + 1, ['_'] + t.text)
    else if !IsAlnum(s[0]) && s[0] != '-' then Sanitized(-1, s)
    else
      var t := Sanitize(s[1..]);
      Sanitized(t.rc, [s[0]] + t.text)
  }

  function CountChar(s: string, c: char): (n: nat)
    ensures n <= |s|
  {
    if s == [] then 0 else (if s[0] == c then 1 else 0) + CountChar(s[1..], c)
  }

  /**
   * On success the return code is the number of dots, which is the number of
   * underscores in the sanitised name, and that name holds only letters,
   * digits, '-' and '_'.
   */
  lemma {:induction false} SanitizeCountsDots(s: string)
    requires Sanitize(s).rc >= 0
    ensures Sanitize(s).rc == CountChar(s, '.') == CountChar(Sanitize(s).text, '_')
    ensures forall i :: 0 <= i < |s| ==> var c := Sanitize(s).text[i]; IsAlnum(c) || c == '-' || c == '_'
  {
    if s != [] {
      SanitizeCountsDots(s[1..]);
      assert Sanitize(s).text[1..] == Sanitize(s[1..]).text;
    }
  }

  /**
   * Where the first k characters are host characters and the scan stops at
   * position k (a bad character, or the end): the dots before k are replaced,
   * everything from k on is untouched, and a bad character makes the code -1.
   */
  lemma {:induction false} SanitizeUpTo(s: string, k: nat)
    requires k <= |s| && (k < |s| ==> !HostChar(s[k]))
    requires forall i :: 0 <= i < k ==> HostChar(s[i])
    ensures Sanitize(s).rc >= 0 <==> k == |s|
    ensures k < |s| ==> Sanitize(s).rc == -1
    ensures forall i :: 0 <= i < |s| ==> Sanitize(s).text[i] == (if i < k then Underscored(s[i]) else s[i])
  {
    if k > 0 {
      SanitizeUpTo(s[1..], k - 1);
      var u := Sanitize(s).text;
      assert u == [Underscored(s[0])] + Sanitize(s[1..]).text;
      forall i | 0 < i < |s|
        ensures u[i] == (if i < k then Underscored(s[i]) else s[i])
      {
        assert u[i] == Sanitize(s[1..]).text[i - 1] && s[1..][i - 1] == s[i];
      }
    } else if s != [] {
      assert Sanitize(s) == Sanitized(-1, s);
    }
  }

  /** What change_dots_to_underscore writes in place of one host character. */
  function Underscored(c: char): (r: char)
    ensures r == '_' <==> c == '.' || c == '_'
  {
    if c == '.' then '_' else c
  }

  /**
   * change_dots_to_underscore on the n-character C string held by a: rewrites
   * a[..n] in place and returns the code Sanitize describes.
   */
  method ChangeDotsToUnderscore(a: array<char>, n: nat) returns (rc: int)
    requires n <= a.Length
    modifies a
    ensures rc == Sanitize(old(a[..n])).rc
    ensures a[..n] == Sanitize(old(a[..n])).text
    ensures forall k :: n <= k < a.Length ==> a[k] == old(a[k])
  {
    ghost var s := a[..n];
    var i, dotCount := 0, 0;
    while i < n
      invariant 0 <= i <= n
      invariant forall k :: i <= k < a.Length ==> a[k] == old(a[k])
      invariant forall k :: 0 <= k < i ==> HostChar(s[k]) && a[k] == Underscored(s[k])
      invariant dotCount == CountChar(s[..i], '.')
    {
      var c := a[i];
      assert c == s[i];
      if c == '.' {
        a[i] := '_';
        dotCount := dotCount + 1;
      } else if !IsAlnum(c) && c != '-' {
        SanitizeUpTo(s, i);
        assert a[..n] == Sanitize(s).text;
        return -1;
      }
      CountCharStep(s, '.', i);
      i := i + 1;
    }
    assert s[..n] == s;
    SanitizeUpTo(s, n);
    SanitizeCountsDots(s);
    assert a[..n] == Sanitize(s).text;
    return dotCount;
  }

  /** Counting over one more character. */
  lemma {:induction false} CountCharStep(s: string, c: char, i: nat)
    requires i < |s|
    ensures CountChar(s[..i + 1], c) == CountChar(s[..i], c) + (if s[i] == c then 1 else 0)
  {
    if i > 0 {
      CountCharStep(s[1..], c, i - 1);
      assert s[..i + 1][1..] == s[1..][..i] && s[..i][1..] == s[1..][..i - 1];
    }
  }

  // ---------------------------------------------------------------------------
  // is_safe_filename

  /**
   * is_safe_filename, scanning as the source does (each character, with a
   * look at its successor).
   */
  predicate IsSafeFilename(s: string)
    requires Ascii(s)
  {
    if s == [] then true
    else if !IsPrint(s[0]) || s[0] == '%' then false
    else if s[0] == '.' && |s| > 1 && s[1] == '.' then false
    else if s[0] == '/' && |s| > 1 && s[1] == '/' then false
    else IsSafeFilename(s[1..])
  }

  /**
   * A file name is safe exactly when all its characters are printable, none
   * is '%', and it contains neither ".." nor "//".
   */
  lemma {:induction false} SafeFilenameIff(s: string)
    requires Ascii(s)
    ensures IsSafeFilename(s) <==>
      (forall i :: 0 <= i < |s| ==> IsPrint(s[i]) && s[i] != '%')
      && !Contains(s, "..") && !Contains(s, "//")
  {
    if s != [] {
      SafeFilenameIff(s[1..]);
      ContainsPair(s, "..");
      ContainsPair(s, "//");
      assert (forall i :: 0 <= i < |s| ==> IsPrint(s[i]) && s[i] != '%')
        <==> IsPrint(s[0]) && s[0] != '%' && forall i :: 0 <= i < |s| - 1 ==> IsPrint(s[1..][i]) && s[1..][i] != '%';
    }
  }

  /** A two-character needle occurs at the front of s or in its tail. */
  lemma ContainsPair(s: string, n: string)
    requires |n| == 2 && |s| > 0
    ensures Contains(s, n) <==> (|s| > 1 && s[0] == n[0] && s[1] == n[1]) || Contains(s[1..], n)
  {
    if Contains(s, n) {
      var j :| 0 <= j <= |s| - 2 && OccursAt(s, n, j);
      if j > 0 {
        assert s[1..][j - 1..j + 1] == s[j..j + 2];
        assert OccursAt(s[1..], n, j - 1);
      } else {
        assert s[0] == s[j..j + 2][0] && s[1] == s[j..j + 2][1];
      }
    }
    if Contains(s[1..], n) {
      var j :| 0 <= j <= |s| - 3 && OccursAt(s[1..], n, j);
      assert s[1..][j..j + 2] == s[j + 1..j + 3];
      assert OccursAt(s, n, j + 1);
    }
    if |s| > 1 && s[0] == n[0] && s[1] == n[1] {
      assert s[0..2] == n;
      assert OccursAt(s, n, 0);
    }
  }

  // ---------------------------------------------------------------------------
  // ts_concatenate_path_filename

  /** The path ts_concatenate_path_filename builds: path, a '/' unless path is empty or ends in one, then the file name. */
  function JoinPath(path: string, filename: string): (r: string)
    ensures |r| == |path| + |filename| + (if path != [] && path[|path| - 1] != '/' then 1 else 0)
    ensures IsPrefix(path, r)
    ensures r[|r| - |filename|..] == filename
    ensures path != [] ==> r[|r| - |filename| - 1] == '/'
  {
    if path != [] && path[|path| - 1] != '/' then path + "/" + filename else path + filename
  }

  /** Writes s into buf starting at position at. */
  method CopyInto(buf: array<char>, at: nat, s: string)
    requires at + |s| <= buf.Length
    modifies buf
    ensures buf[at..at + |s|] == s
    ensures buf[..at] == old(buf[..at]) && buf[at + |s|..] == old(buf[at + |s|..])
  {
    var k := 0;
    while k < |s|
      invariant 0 <= k <= |s|
      invariant buf[at..at + k] == s[..k]
      invariant buf[..at] == old(buf[..at]) && buf[at + |s|..] == old(buf[at + |s|..])
    {
      buf[at + k] := s[k];
      assert buf[at..at + k + 1] == buf[at..at + k] + [s[k]];
      k := k + 1;
    }
  }

  /**
   * ts_concatenate_path_filename(buf, buf.Length, path, filename): fails with
   * -1 for a missing file name, or when the joined path and its NUL would not
   * fit in the buffer (then the buffer is untouched); otherwise writes the
   * joined path and a NUL.  A missing path counts as empty.
   */
  method ConcatenatePathFilename(buf: array<char>, path: Option<string>, filename: Option<string>) returns (rc: int)
    modifies buf
    ensures filename.None? ==> rc == -1
    ensures filename.Some? ==>
      var j := JoinPath(if path.Some? then path.value else "", filename.value);
      (rc == 0 <==> |j| + 1 <= buf.Length)
      && (rc == 0 ==> buf[..|j|] == j && buf[|j|] == '\0')
    ensures rc == 0 || rc == -1
    ensures rc != 0 ==> buf[..] == old(buf[..])
  {
    if filename.None? {
      return -1;
    }
    var f := filename.value;
    var p := if path.Some? then path.value else "";
    var length := 1;
    if |p| > 0 {
      length := length + |p|;
      if p[|p| - 1] != '/' {
        length := length + 1;
      }
    }
    length := length + |f|;
    if length > buf.Length {
      return -1;
    }
    var j := JoinPath(p, f);
    buf[0] := '\0';
    var at := 0;
    if |p| > 0 {
      CopyInto(buf, 0, p);
      at := |p|;
      if p[|p| - 1] != '/' {
        CopyInto(buf, at, "/");
        at := at + 1;
      }
    }
    assert buf[..at] == j[..at];
    CopyInto(buf, at, f);
    assert buf[..at + |f|] == buf[..at] + buf[at..at + |f|];
    buf[at + |f|] := '\0';
    assert buf[..|j|] == j;
    return 0;
  }
}
