/**
 * The TLS side of src/ssl.c: routing a ClientHello's server name (the
 * server_name extension of section 3 of RFC 6066) to a certificate file
 * under the certificate path, and the chunked write of a mapped file.
 * OpenSSL stays outside the model: whether a certificate file loads is a
 * set of paths, and what SSL_write returns is an oracle.
 */
module Tls {
  import opened CStr
  import opened Utils
  import Dispatch

  /** SSL_TLSEXT_ERR_OK and SSL_TLSEXT_ERR_ALERT_FATAL. */
  datatype Alert = AlertOk | AlertFatal

  /**
   * The outcome of the servername callback: the code for OpenSSL and the
   * certificate file switched to, if any; Undefined where the source stats
   * a path buffer it never wrote.
   */
  datatype Routed = Routed(rv: Alert, loaded: Option<string>) | RouteUndefined

  /**
   * ts_ssl_loadcert: a file whose certificate and key load (a member of
   * `loadable`) becomes the session's context; any other gives a fatal
   * alert.
   */
  function LoadCert(file: string, loadable: set<string>): (r: Routed)
    ensures r.Routed? && (r.rv == AlertOk <==> file in loadable)
    ensures r.loaded == (if file in loadable then Some(file) else None)
  {
    if file in loadable then Routed(AlertOk, Some(file)) else Routed(AlertFatal, None)
  }

  /** The first '_' at or after position i of t, or |t| when there is none. */
  function UnderscoreFrom(t: string, i: nat): (j: nat)
    requires i <= |t|
    ensures i <= j <= |t| && (j < |t| ==> t[j] == '_')
    ensures forall k :: i <= k < j ==> t[k] != '_'
    decreases |t| - i
  {
    if i == |t| || t[i] == '_' then i else UnderscoreFrom(t, i + 1)
  }

  /**
   * The wildcard candidate of a sanitised name: the walk starts at the
   * second character and stops at the next '_' (or the end); the character
   * before it becomes '+' and the candidate starts there.
   */
  function WildcardName(t: string): (w: string)
    requires |t| > 0
    ensures 0 < |w| <= |t| && w[0] == '+'
    ensures w[1..] == t[|t| - |w| + 1..]
  {
    var j := UnderscoreFrom(t, 1);
    "+" + t[j..]
  }

  /**
   * A name whose first label has no '_' yields the wildcard of the rest:
   * "www_example_com" becomes "+_example_com".
   */
  lemma WildcardOfFirstLabel(first: string, rest: string)
    requires |first| > 0 && forall k :: 0 <= k < |first| ==> first[k] != '_'
    ensures WildcardName(first + "_" + rest) == "+_" + rest
  {
    var t := first + "_" + rest;
    forall k | 1 <= k < |first|
      ensures t[k] != '_'
    {
      assert t[k] == first[k];
    }
    UnderscoreFromIsFirst(t, 1, |first|);
    assert t[|first|..] == "_" + rest;
  }

  lemma WildcardExample()
    ensures WildcardName("www_example_com") == "+_example_com"
  {
    var t := "www_example_com";
    UnderscoreFromIsFirst(t, 1, 3);
    assert t[3..] == "_example_com";
  }

  /**
   * ts_ssl_servername_cb: the server name is sanitised (a bad character is
   * a fatal alert); the certificate path joined with it is tried first, and
   * if that is no regular file and the name had more than one dot and does
   * not start with '_', the wildcard candidate; a regular file is loaded,
   * and with neither the handshake goes on.  A ClientHello without a server
   * name duplicates a null pointer, and a first candidate too long for the
   * 200-byte buffer leaves it unwritten before it is stat'ed: both are
   * undefined.  A second candidate too long leaves the first in the buffer.
   */
  function ServerName(servername: Option<string>, certPath: Option<string>, fs: Dispatch.FileSystem, loadable: set<string>): (r: Routed)
    ensures servername.None? ==> r.RouteUndefined?
    ensures servername.Some? && Sanitize(servername.value).rc < 0 ==> r == Routed(AlertFatal, None)
    ensures r.Routed? && r.loaded.Some? ==>
      r.rv == AlertOk && r.loaded.value in loadable && Dispatch.IsRegular(fs, r.loaded.value)
    ensures r.Routed? && r.rv == AlertFatal && servername.Some? && Sanitize(servername.value).rc >= 0 ==>
      r.loaded.None? && r == LoadCert(CertCandidate(servername.value, certPath, fs), loadable)
  {
    if servername.None? then RouteUndefined
    else
      var s := Sanitize(servername.value);
      if s.rc < 0 then Routed(AlertFatal, None)
      else
        var dir := if certPath.Some? then certPath.value else "";
        var first := JoinPath(dir, s.text);
        if |first| + 1 > Dispatch.MaxPathLength then RouteUndefined
        else if Dispatch.IsRegular(fs, first) then LoadCert(first, loadable)
        else
          var c := CertCandidate(servername.value, certPath, fs);
          if Dispatch.IsRegular(fs, c) then LoadCert(c, loadable) else Routed(AlertOk, None)
  }

  /**
   * A well-formed name whose first candidate path fits the buffer with its
   * NUL: what the callback needs of a present server name.
   */
  predicate FirstCandidateFits(servername: string, certPath: Option<string>) {
    Sanitize(servername).rc >= 0 ==>
      |JoinPath(if certPath.Some? then certPath.value else "", Sanitize(servername).text)| + 1 <= Dispatch.MaxPathLength
  }

  /** The routing is defined exactly for a present name whose first candidate fits. */
  lemma DefinedIffFits(servername: Option<string>, certPath: Option<string>, fs: Dispatch.FileSystem, loadable: set<string>)
    ensures !ServerName(servername, certPath, fs, loadable).RouteUndefined? <==>
      servername.Some? && FirstCandidateFits(servername.value, certPath)
  {
  }

  /**
   * The file the callback stats last for a well-formed name: the wildcard
   * candidate when the first candidate is no regular file, the name had more
   * than one dot and does not start with '_', and the wildcard path fits the
   * buffer; the first candidate otherwise.
   */
  function CertCandidate(servername: string, certPath: Option<string>, fs: Dispatch.FileSystem): (c: string)
    requires Sanitize(servername).rc >= 0
    ensures var dir := if certPath.Some? then certPath.value else "";
      IsPrefix(dir, c)
      && (c == JoinPath(dir, Sanitize(servername).text)
          || (Sanitize(servername).rc > 1 && |c| + 1 <= Dispatch.MaxPathLength
              && c == JoinPath(dir, WildcardName(Sanitize(servername).text))))
  {
    var s := Sanitize(servername);
    var dir := if certPath.Some? then certPath.value else "";
    var first := JoinPath(dir, s.text);
    if !Dispatch.IsRegular(fs, first) && s.rc > 1 && s.text[0] != '_' then
      var second := JoinPath(dir, WildcardName(s.text));
      if |second| + 1 <= Dispatch.MaxPathLength then second else first
    else first
  }

  /**
   * With the certificate for the full name present, it is the one loaded;
   * with only the wildcard one present, a name of more than one dot loads
   * that one.
   */
  lemma ExactBeforeWildcard(servername: string, certPath: Option<string>, fs: Dispatch.FileSystem, loadable: set<string>)
    requires Sanitize(servername).rc >= 0 && FirstCandidateFits(servername, certPath)
    ensures var first := JoinPath(if certPath.Some? then certPath.value else "", Sanitize(servername).text);
      Dispatch.IsRegular(fs, first) ==> ServerName(Some(servername), certPath, fs, loadable) == LoadCert(first, loadable)
    ensures var dir := if certPath.Some? then certPath.value else "";
      var s := Sanitize(servername);
      s.rc > 1 && s.text[0] != '_' ==>
        var second := JoinPath(dir, WildcardName(s.text));
        |second| + 1 <= Dispatch.MaxPathLength && !Dispatch.IsRegular(fs, JoinPath(dir, s.text)) && Dispatch.IsRegular(fs, second) ==>
          ServerName(Some(servername), certPath, fs, loadable) == LoadCert(second, loadable)
  {
    CallbackSteps(servername, certPath, fs, loadable);
    var s := Sanitize(servername);
    if s.rc > 1 && s.text[0] != '_' && !Dispatch.IsRegular(fs, JoinPath(if certPath.Some? then certPath.value else "", s.text)) {
      CandidateIsWildcard(servername, certPath, fs);
    }
  }

  /** With no regular file at all, every well-formed name lets the handshake go on with the default certificate. */
  lemma NoCandidateContinues(servername: string, certPath: Option<string>, fs: Dispatch.FileSystem, loadable: set<string>)
    requires Sanitize(servername).rc >= 0 && FirstCandidateFits(servername, certPath)
    requires forall p :: p in fs ==> fs[p].None?
    ensures ServerName(Some(servername), certPath, fs, loadable) == Routed(AlertOk, None)
  {
    CallbackSteps(servername, certPath, fs, loadable);
  }

  /**
   * The callback as written: the name is duplicated into a buffer and
   * sanitised in place; each candidate is concatenated into the path buffer
   * and stat'ed; the wildcard is made by walking to the first '_' after the
   * first character and writing '+' just before it.
   */
  method ServernameCallback(servername: Option<string>, certPath: Option<string>, fs: Dispatch.FileSystem, loadable: set<string>)
    returns (rv: Alert, loaded: Option<string>)
    requires servername.Some? && NoNul(servername.value)
    requires FirstCandidateFits(servername.value, certPath)
    ensures ServerName(servername, certPath, fs, loadable) == Routed(rv, loaded)
  {
    var sn := servername.value;
    var n := |sn|;
    var name, dotCount := SanitizedCopy(sn);
    if dotCount < 0 {
      return AlertFatal, None;
    }
    ghost var text := Sanitize(sn).text;
    SanitizedText(sn);
    var file, path := FirstCandidate(name, n, certPath);
    if Dispatch.IsRegular(fs, path) {
      CallbackSteps(sn, certPath, fs, loadable);
      var r := LoadCert(path, loadable);
      return r.rv, r.loaded;
    }
    if dotCount > 1 && name[0] != '_' {
      assert text[0] != '_' by {
        assert text[0] == name[..n][0];
      }
      path := WildcardCandidate(name, n, file, certPath, path);
      CandidateIsWildcard(sn, certPath, fs);
    } else {
      assert !(dotCount > 1 && text[0] != '_') by {
        if dotCount > 1 {
          assert name[..n][0] == name[0];
        }
      }
      CandidateIsFirst(sn, certPath, fs);
    }
    CallbackSteps(sn, certPath, fs, loadable);
    if Dispatch.IsRegular(fs, path) {
      var r := LoadCert(path, loadable);
      return r.rv, r.loaded;
    }
    return AlertOk, None;
  }

  /**
   * The first half of the callback: strdup of the name, then
   * change_dots_to_underscore on the copy.
   */
  method SanitizedCopy(servername: string) returns (name: array<char>, rc: int)
    ensures fresh(name) && name.Length == |servername| + 1 && name[|servername|] == '\0'
    ensures rc == Sanitize(servername).rc
    ensures rc >= 0 ==> name[..|servername|] == Sanitize(servername).text
  {
    var n := |servername|;
    name := new char[n + 1](i => '\0');
    CopyInto(name, 0, servername);
    assert name[n] == name[n..][0] == '\0';
    rc := ChangeDotsToUnderscore(name, n);
    assert name[n] == '\0';
  }

  /** The first candidate: the name joined to the certificate path in a fresh 200-byte buffer. */
  method FirstCandidate(name: array<char>, n: nat, certPath: Option<string>) returns (file: array<char>, path: string)
    requires n <= name.Length
    requires |JoinPath(if certPath.Some? then certPath.value else "", name[..n])| + 1 <= Dispatch.MaxPathLength
    ensures fresh(file) && file.Length == Dispatch.MaxPathLength
    ensures path == JoinPath(if certPath.Some? then certPath.value else "", name[..n])
  {
    file := new char[Dispatch.MaxPathLength];
    var rc := ConcatenatePathFilename(file, certPath, Some(name[..n]));
    path := file[..|JoinPath(if certPath.Some? then certPath.value else "", name[..n])|];
  }

  /**
   * The second half of the callback: the wildcard is made in the name
   * buffer and joined into the path buffer; when it does not fit, the buffer
   * still holds the previous candidate.
   */
  method WildcardCandidate(name: array<char>, n: nat, file: array<char>, certPath: Option<string>, previous: string)
    returns (path: string)
    requires name != file && 0 < n < name.Length && name[n] == '\0' && NoNul(name[..n])
    modifies name, file
    ensures var second := JoinPath(if certPath.Some? then certPath.value else "", WildcardName(old(name[..n])));
      path == (if |second| + 1 <= file.Length then second else previous)
  {
    var p := Wildcard(name, n);
    var rc := ConcatenatePathFilename(file, certPath, Some(name[p..n]));
    if rc == 0 {
      path := file[..|JoinPath(if certPath.Some? then certPath.value else "", name[p..n])|];
    } else {
      path := previous;
    }
  }

  lemma CandidateIsFirst(servername: string, certPath: Option<string>, fs: Dispatch.FileSystem)
    requires Sanitize(servername).rc >= 0
    requires !(Sanitize(servername).rc > 1 && Sanitize(servername).text[0] != '_')
    ensures CertCandidate(servername, certPath, fs) == JoinPath(if certPath.Some? then certPath.value else "", Sanitize(servername).text)
  {
  }

  lemma CandidateIsWildcard(servername: string, certPath: Option<string>, fs: Dispatch.FileSystem)
    requires Sanitize(servername).rc > 1 && Sanitize(servername).text[0] != '_'
    requires !Dispatch.IsRegular(fs, JoinPath(if certPath.Some? then certPath.value else "", Sanitize(servername).text))
    ensures var dir := if certPath.Some? then certPath.value else "";
      var second := JoinPath(dir, WildcardName(Sanitize(servername).text));
      CertCandidate(servername, certPath, fs)
        == (if |second| + 1 <= Dispatch.MaxPathLength then second else JoinPath(dir, Sanitize(servername).text))
  {
  }

  /** A sanitised name holds no NUL, and one with more than one dot has more than one character. */
  lemma SanitizedText(servername: string)
    requires Sanitize(servername).rc >= 0
    ensures NoNul(Sanitize(servername).text)
    ensures Sanitize(servername).rc > 1 ==> |Sanitize(servername).text| > 1
  {
    SanitizeCountsDots(servername);
  }

  /** The two decisions of the callback on a well-formed name, as facts about ServerName. */
  lemma CallbackSteps(servername: string, certPath: Option<string>, fs: Dispatch.FileSystem, loadable: set<string>)
    requires Sanitize(servername).rc >= 0 && FirstCandidateFits(servername, certPath)
    ensures NoNul(Sanitize(servername).text)
    ensures var first := JoinPath(if certPath.Some? then certPath.value else "", Sanitize(servername).text);
      |first| + 1 <= Dispatch.MaxPathLength
      && (Dispatch.IsRegular(fs, first) ==> ServerName(Some(servername), certPath, fs, loadable) == LoadCert(first, loadable))
    ensures var first := JoinPath(if certPath.Some? then certPath.value else "", Sanitize(servername).text);
      var c := CertCandidate(servername, certPath, fs);
      !Dispatch.IsRegular(fs, first) ==>
        ServerName(Some(servername), certPath, fs, loadable) == (if Dispatch.IsRegular(fs, c) then LoadCert(c, loadable) else Routed(AlertOk, None))
  {
    SanitizeCountsDots(servername);
  }

  /**
   * The character walk of the callback on the n-character name in a: from the
   * second character to the first '_' or the NUL, then one step back, where
   * '+' is written.  Returns where the candidate starts.
   */
  method Wildcard(a: array<char>, n: nat) returns (p: nat)
    requires 0 < n < a.Length && a[n] == '\0' && NoNul(a[..n])
    modifies a
    ensures p < n && a[p..n] == WildcardName(old(a[..n]))
    ensures a[n] == '\0'
  {
    ghost var t := a[..n];
    p := 1;
    while a[p] != '\0' && a[p] != '_'
      invariant 1 <= p <= n && a[..n] == t && a[n] == '\0'
      invariant forall k :: 1 <= k < p ==> t[k] != '_'
      decreases n - p
    {
      assert t[p] == a[p];
      p := p + 1;
    }
    assert p == UnderscoreFrom(t, 1) by {
      if p < n {
        assert t[p] == a[p];
      }
      UnderscoreFromIsFirst(t, 1, p);
    }
    p := p - 1;
    a[p] := '+';
    assert a[p + 1..n] == t[p + 1..];
  }

  /** The first '_' from i is the only position from i with no '_' before it and a '_' (or the end) at it. */
  lemma {:induction false} UnderscoreFromIsFirst(t: string, i: nat, j: nat)
    requires i <= j <= |t| && (j < |t| ==> t[j] == '_')
    requires forall k :: i <= k < j ==> t[k] != '_'
    ensures UnderscoreFrom(t, i) == j
    decreases j - i
  {
    if i < j {
      UnderscoreFromIsFirst(t, i + 1, j);
    }
  }

  // ---------------------------------------------------------------------------
  // ts_ssl_sendfile

  /** MAX_SEND_BUFFER_SIZE: the largest chunk passed to one SSL_write. */
  const MaxSendBufferSize: nat := 1048576

  /** The length of the next chunk with `remaining` bytes left. */
  function ChunkLength(remaining: int): int {
    if remaining > MaxSendBufferSize then MaxSendBufferSize else remaining
  }

  /**
   * The chunk lengths the loop passes to SSL_write with `remaining` bytes
   * left, where `written(k)` is what the k-th call returns: each chunk is
   * the smaller of the rest and 1 MiB, and the loop ends after the first
   * write that does not take its whole chunk.
   */
  function Chunks(remaining: int, written: nat -> int, k: nat): (r: seq<int>)
    ensures forall i :: 0 <= i < |r| ==> 0 < r[i] <= MaxSendBufferSize
    ensures remaining <= 0 <==> r == []
    decreases if remaining > 0 then remaining else 0
  {
    if remaining <= 0 then []
    else
      var len := ChunkLength(remaining);
      if written(k) != len then [len] else [len] + Chunks(remaining - len, written, k + 1)
  }

  /** The bytes the loop has counted as sent when it ends. */
  function Sent(remaining: int, written: nat -> int, k: nat): (n: nat)
    ensures n <= (if remaining > 0 then remaining else 0)
    decreases if remaining > 0 then remaining else 0
  {
    if remaining <= 0 then 0
    else
      var len := ChunkLength(remaining);
      if written(k) != len then 0 else len + Sent(remaining - len, written, k + 1)
  }

  /** Every write from the k-th on takes its whole chunk. */
  predicate FullWrites(remaining: int, written: nat -> int, k: nat)
    decreases if remaining > 0 then remaining else 0
  {
    remaining <= 0
    || (written(k) == ChunkLength(remaining) && FullWrites(remaining - ChunkLength(remaining), written, k + 1))
  }

  /**
   * The whole file is sent exactly when every write takes its whole chunk;
   * the chunks then add up to the file and there are as many as 1 MiB
   * blocks it spans.
   */
  lemma {:induction false} SentAllIffFullWrites(remaining: int, written: nat -> int, k: nat)
    requires remaining > 0
    ensures Sent(remaining, written, k) == remaining <==> FullWrites(remaining, written, k)
    ensures FullWrites(remaining, written, k) ==>
      |Chunks(remaining, written, k)| == (remaining + MaxSendBufferSize - 1) / MaxSendBufferSize
    decreases remaining
  {
    var len := ChunkLength(remaining);
    if remaining - len > 0 {
      SentAllIffFullWrites(remaining - len, written, k + 1);
    }
  }

  /**
   * When the loop stops early, the last write it made is the one that fell
   * short, and every earlier one took its whole chunk.
   */
  lemma {:induction false} StopsAtShortWrite(remaining: int, written: nat -> int, k: nat)
    requires remaining > 0
    ensures forall i :: 0 <= i < |Chunks(remaining, written, k)| - 1 ==> written(k + i) == Chunks(remaining, written, k)[i]
    ensures var c := Chunks(remaining, written, k);
      Sent(remaining, written, k) < remaining ==> written(k + |c| - 1) != c[|c| - 1]
    decreases remaining
  {
    var len := ChunkLength(remaining);
    if written(k) == len && remaining - len > 0 {
      StopsAtShortWrite(remaining - len, written, k + 1);
      var c := Chunks(remaining, written, k);
      var c' := Chunks(remaining - len, written, k + 1);
      assert c == [len] + c';
      forall i | 0 <= i < |c| - 1
        ensures written(k + i) == c[i]
      {
        if i > 0 {
          var j := i - 1;
          assert 0 <= j < |c'| - 1 && c[i] == c'[j] && k + i == (k + 1) + j;
          assert written((k + 1) + j) == c'[j];
        } else {
          assert c[0] == len;
        }
      }
    }
  }

  /** One step of the loop, unfolded. */
  lemma ChunkStep(remaining: int, written: nat -> int, k: nat)
    requires remaining > 0
    ensures var len := ChunkLength(remaining);
      if written(k) != len then Chunks(remaining, written, k) == [len] && Sent(remaining, written, k) == 0
      else (Chunks(remaining, written, k) == [len] + Chunks(remaining - len, written, k + 1)
        && Sent(remaining, written, k) == len + Sent(remaining - len, written, k + 1))
  {
  }

  /**
   * ts_ssl_sendfile: when the file could be mapped, it is written in chunks
   * until all of it is sent or a write falls short; the result is always 0.
   * `calls` are the lengths passed to SSL_write and `sent` the bytes the
   * loop counted as sent.
   */
  method SslSendfile(filesize: int, mapped: bool, written: nat -> int) returns (rv: int, sent: nat, calls: seq<int>)
    ensures rv == 0
    ensures calls == (if mapped then Chunks(filesize, written, 0) else [])
    ensures sent == (if mapped then Sent(filesize, written, 0) else 0)
  {
    rv, sent, calls := 0, 0, [];
    if !mapped {
      return;
    }
    var remaining := filesize;
    var k := 0;
    while remaining > 0
      invariant sent + Sent(remaining, written, k) == Sent(filesize, written, 0)
      invariant calls + Chunks(remaining, written, k) == Chunks(filesize, written, 0)
      decreases if remaining > 0 then remaining else 0
    {
      var len := if remaining > MaxSendBufferSize then MaxSendBufferSize else remaining;
      assert len == ChunkLength(remaining);
      var r := written(k);
      calls := calls + [len];
      ChunkStep(remaining, written, k);
      if r != len {
        break;
      }
      sent := sent + r;
      remaining := remaining - r;
      k := k + 1;
    }
  }
}
