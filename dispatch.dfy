/**
 * The dispatcher of src/connection.c: the handlers that answer a parsed
 * request (a file under the serve path, a 204 for generate_204 URLs, a 307
 * redirect for click-tracking links, a window-closing script, and the decoy
 * payload), the rule order of `serve`, and the assembly of the response in
 * `connection_new` and `connection_write`.
 *
 * The connection record is a stack variable of connection_new that the
 * handlers update through a pointer and nothing else sees; it is threaded
 * here as a value.  The filesystem is a map from path to the size of the
 * regular file there (None: the path exists but is no regular file).
 */
module Dispatch {
  import opened CStr
  import opened Utils
  import opened Mime
  import Http
  import Config

  /** MAX_PATH_LENGTH: the size of handle_file's path buffer, NUL included. */
  const MaxPathLength: nat := 200

  /** CHAR_BUF_SIZE: the size of the request and response buffers. */
  const CharBufSize: nat := 8192

  /** content_jsclose: the page that closes a window opened for an ad. */
  const JsClosePage: string :=
    "<!DOCTYPE html><html><head><meta charset='utf-8'/>"
    + "<title></title><script type='text/javascript'>"
    + "if(self==top)window.close();"
    + "</script></head></html>"

  /** The path each regular file lives at, with its size; None for a path that is no regular file. */
  type FileSystem = map<string, Option<nat>>

  predicate IsRegular(fs: FileSystem, path: string) {
    path in fs && fs[path].Some?
  }

  /** The int a file size becomes in the connection record's `length`. */
  function Int32(n: int): (r: int)
    ensures -0x8000_0000 <= r < 0x8000_0000
    ensures 0 <= n < 0x8000_0000 ==> r == n
  {
    (n + 0x8000_0000) % 0x1_0000_0000 - 0x8000_0000
  }

  /**
   * The connection record: the constant body to send (`str`), its length
   * (-1: none), the file to send (`filefd`, named by its path), and the
   * response header under construction.
   */
  datatype Conn = Conn(str: Option<seq<byte>>, length: int, filefd: Option<string>, resp: Http.Response)
  {
    /** The record with the response's status code set. */
    function WithStatus(code: int): (c: Conn)
      ensures c.resp.status == code && c.resp.fields == resp.fields && c.resp.version == resp.version
      ensures c.str == str && c.length == length && c.filefd == filefd
    {
      this.(resp := resp.(status := code))
    }

    /** http_header_setvalue on the record's response. */
    function WithField(k: Http.FieldKey, v: string): (c: Conn)
      requires resp.Valid()
      ensures c.resp.Valid() && c.resp.status == resp.status && c.resp.version == resp.version
      ensures c.str == str && c.length == length && c.filefd == filefd
    {
      this.(resp := resp.(fields := Http.SetField(resp.fields, k, Some(v)).fields))
    }
  }


  // ---------------------------------------------------------------------------
  // get_mime and the extension it is given

  /** strrchr(filename, '.'): the suffix from the last dot, if any. */
  function Extension(filename: string): (r: Option<string>)
    ensures r.Some? ==> 0 < |r.value| <= |filename| && r.value[0] == '.' && r.value == filename[|filename| - |r.value|..]
    ensures r.Some? ==> forall i :: 1 <= i < |r.value| ==> r.value[i] != '.'
    ensures r.None? ==> forall i :: 0 <= i < |filename| ==> filename[i] != '.'
  {
    match LastOccurrence(filename, ".")
    case None =>
      assert forall i :: 0 <= i < |filename| ==> filename[i] != '.' by {
        forall i | 0 <= i < |filename| ensures filename[i] != '.' {
          assert !OccursAt(filename, ".", i);
          assert filename[i..i + 1] == [filename[i]];
        }
      }
      None
    case Some(k) =>
      assert filename[k..k + 1] == ".";
      assert filename[k..][0] == filename[k];
      assert forall i :: k < i < |filename| ==> filename[i] != '.' by {
        forall i | k < i < |filename| ensures filename[i] != '.' {
          assert !OccursAt(filename, ".", i);
          assert filename[i..i + 1] == [filename[i]];
        }
      }
      Some(filename[k..])
  }

  /** The table row serve resolves for a file name. */
  function MimeOf(filename: string): MimeEntry {
    MimeFor(Extension(filename))
  }

  // ---------------------------------------------------------------------------
  // handle_file

  /**
   * The host name with its port cut off: find_delimiter reports the
   * characters before the first ':' (or the whole length), and the name is
   * cut there.
   */
  function HostCut(host: string): (r: string)
    ensures ':' !in host ==> r == host
    ensures host != [] && host[0] == ':' ==> r == host
    ensures ':' in host && host[0] != ':' ==> |r| < |host| && r == host[..|r|] && host[|r|] == ':' && ':' !in r
  {
    var n := Delim(host, 0, ":").length;
    ColonDelim(host);
    if n > 0 then host[..n] else host
  }

  /** find_delimiter with ":" reports the position of the first ':', or the whole length when there is none. */
  lemma ColonDelim(host: string)
    ensures var n := Delim(host, 0, ":").length;
      && (':' !in host ==> n == |host|)
      && (':' in host ==> n < |host| && host[n] == ':' && ':' !in host[..n])
  {
    DelimIsExact(host, 0, ":");
    assert host[0..] == host;
    var n := Delim(host, 0, ":").length;
    match FirstOccurrence(host, ":")
    case Some(p) =>
      assert host[p..p + 1][0] == host[p];
      forall q | 0 <= q < p
        ensures host[q] != ':'
      {
        if host[q] == ':' {
          assert host[q..q + 1] == ":";
          assert OccursAt(host, ":", q);
        }
      }
    case None =>
      forall q | 0 <= q < |host|
        ensures host[q] != ':'
      {
        if host[q] == ':' {
          assert host[q..q + 1] == ":";
          assert OccursAt(host, ":", q);
        }
      }
  }

  /** The path handle_file stats: serve path, '/' if missing, sanitised host, file name. */
  function FilePath(servePath: string, hostText: string, filename: string): string {
    JoinPath(servePath, hostText + filename)
  }

  /** Where handle_file gets to before it looks at the filesystem. */
  datatype FileTarget = Declined | BadHost | Target(path: string)

  /**
   * The checks of handle_file up to the stat: the file name "/" and a
   * missing Host are declined; so is a Host holding '/', starting with '.'
   * or empty; a Host with a character other than letters, digits, '-' and
   * '.' (after its port is cut) is a bad host; a path that with its NUL
   * would not fit the 200-byte buffer is declined; otherwise the path.
   */
  function TargetOf(servePath: string, filename: string, host: Http.LookupResult): (t: FileTarget)
    ensures t.Target? ==> |t.path| + 1 <= MaxPathLength && |filename| > 1 && host.Found?
    ensures t.Target? ==> t.path == FilePath(servePath, Sanitize(HostCut(host.value)).text, filename)
    ensures t.Target? ==> Sanitize(HostCut(host.value)).rc >= 0
    ensures t.BadHost? <==> (|filename| > 1 && host.Found? && '/' !in host.value && host.value != [] && host.value[0] != '.'
                            && Sanitize(HostCut(host.value)).rc < 0)
  {
    if |filename| <= 1 || !host.Found? then Declined
    else
      var h := host.value;
      if '/' in h || h == [] || h[0] == '.' then Declined
      else
        var s := Sanitize(HostCut(h));
        if s.rc < 0 then BadHost
        else
          var path := FilePath(servePath, s.text, filename);
          if |path| + 1 > MaxPathLength then Declined else Target(path)
  }

  /**
   * A handler's return code and the record afterwards, or Undefined where
   * the handler reads a header whose lookup is undefined.
   */
  datatype Handled = Handled(rc: int, conn: Conn) | HandlerUndefined

  /**
   * handle_file: a regular file at the target path is served with status
   * 200 and its size as length, by descriptor for GET; anything else
   * returns -1 leaving status 400 for a bad host, 403 for a path that is
   * no regular file and 501 for a regular file asked for by another method.
   * `open` is taken to succeed on a regular file.
   */
  function HandleFile(c: Conn, servePath: string, meth: Http.Method, filename: string, host: Http.LookupResult, fs: FileSystem): (r: Handled)
    ensures r.HandlerUndefined? <==> |filename| > 1 && host.LookupUndefined?
    ensures r.Handled? ==> r.conn.str == c.str && r.conn.resp.fields == c.resp.fields && r.conn.resp.version == c.resp.version
    ensures r.Handled? ==> (r.rc == 0 <==> (TargetOf(servePath, filename, host).Target? && IsRegular(fs, TargetOf(servePath, filename, host).path)
                                            && (meth == Http.Get || meth == Http.Head)))
    ensures r.Handled? && r.rc == 0 ==> (var path := TargetOf(servePath, filename, host).path;
      r.conn.resp.status == 200 && r.conn.length == Int32(fs[path].value)
      && r.conn.filefd == (if meth == Http.Get then Some(path) else c.filefd))
    ensures r.Handled? && r.rc != 0 ==> r.conn.filefd == c.filefd
    ensures r.Handled? && r.rc != 0 && (meth == Http.Get || meth == Http.Head) ==> r.conn == c.WithStatus(r.conn.resp.status)
    ensures r.Handled? && TargetOf(servePath, filename, host).BadHost? ==> r.rc != 0 && r.conn.resp.status == 400
    ensures var t := TargetOf(servePath, filename, host);
      r.Handled? && t.Target? && !IsRegular(fs, t.path) ==> r.rc != 0 && r.conn.resp.status == 403
    ensures var t := TargetOf(servePath, filename, host);
      r.Handled? && t.Target? && IsRegular(fs, t.path) && meth != Http.Get && meth != Http.Head ==>
        r.rc != 0 && r.conn.resp.status == 501
  {
    if |filename| > 1 && host.LookupUndefined? then HandlerUndefined
    else if |filename| <= 1 then Handled(-1, c)
    else
      match TargetOf(servePath, filename, host)
      case Declined => Handled(-1, c)
      case BadHost => Handled(-1, c.WithStatus(400))
      case Target(path) =>
        if IsRegular(fs, path) then
          var c' := c.(length := Int32(fs[path].value)).WithStatus(200);
          if meth == Http.Get then Handled(0, c'.(filefd := Some(path)))
          else if meth == Http.Head then Handled(0, c')
          else Handled(-1, c'.WithStatus(501))
        else Handled(-1, c.WithStatus(403))
  }

  /** A host part may hold only letters, digits, '-' and '_'. */
  predicate HostPartChar(c: char) {
    IsAlnum(c) || c == '-' || c == '_'
  }

  /**
   * The layout of a built path: the serve path first, then the host part
   * and the file name at its end.
   */
  lemma FilePathLayout(servePath: string, text: string, filename: string)
    requires forall i :: 0 <= i < |text| ==> HostPartChar(text[i])
    ensures var path := FilePath(servePath, text, filename);
      var start := |path| - |filename| - |text|;
      IsPrefix(servePath, path) && start >= |servePath|
      && path[start..start + |text|] == text && path[|path| - |filename|..] == filename
      && forall i :: start <= i < start + |text| ==> HostPartChar(path[i])
  {
    var tail := text + filename;
    var path := JoinPath(servePath, tail);
    var start := |path| - |tail|;
    assert path[start..] == tail;
    assert path[start..start + |text|] == tail[..|text|] == text;
    assert path[|path| - |filename|..] == tail[|text|..] == filename;
    forall i | start <= i < start + |text|
      ensures HostPartChar(path[i])
    {
      assert path[i] == tail[i - start] == text[i - start];
    }
  }

  /**
   * The sanitised host part of a served path holds only letters, digits,
   * '-' and '_', and the path starts with the serve path and ends with the
   * file name: a Host header cannot lead the server out of its serve path.
   */
  lemma TargetStaysUnderServePath(servePath: string, filename: string, host: Http.LookupResult)
    requires TargetOf(servePath, filename, host).Target?
    ensures var path := TargetOf(servePath, filename, host).path;
      var text := Sanitize(HostCut(host.value)).text;
      var start := |path| - |filename| - |text|;
      IsPrefix(servePath, path) && start >= |servePath|
      && path[start..start + |text|] == text && path[|path| - |filename|..] == filename
      && forall i :: start <= i < start + |text| ==> HostPartChar(path[i])
  {
    var text := Sanitize(HostCut(host.value)).text;
    SanitizeCountsDots(HostCut(host.value));
    FilePathLayout(servePath, text, filename);
  }

  /**
   * The length handle_file checks against the buffer, as written: the host
   * length is taken one short once the port is cut (or, without a port, the
   * whole name is cut at its own end), and the NUL is counted once.
   */
  function CountedLengthAsWritten(servePath: string, host: string, filename: string): nat {
    var n := Delim(host, 0, ":").length;
    var hostLength := if n > 0 then n - 1 else |host|;
    1 + (if |servePath| > 0 then |servePath| + (if servePath[|servePath| - 1] != '/' then 1 else 0) else 0)
      + hostLength + |filename|
  }

  /**
   * The counted length leaves out one byte whenever the host does not start
   * with ':': a path of exactly 200 characters passes the check, and strcat
   * then writes it and its NUL, 201 bytes, into the 200-byte buffer.
   */
  lemma HostLengthOffByOne(servePath: string, host: string, filename: string)
    requires host != [] && host[0] != ':'
    ensures var path := FilePath(servePath, Sanitize(HostCut(host)).text, filename);
      CountedLengthAsWritten(servePath, host, filename) == |path|
    ensures var path := FilePath(servePath, Sanitize(HostCut(host)).text, filename);
      |path| == MaxPathLength ==> CountedLengthAsWritten(servePath, host, filename) <= MaxPathLength < |path| + 1
  {
    var d := Delim(host, 0, ":");
    if d.length == 0 {
      DelimFound(host, 0, ":");
    }
  }

  // ---------------------------------------------------------------------------
  // handle_redirect

  /** The query decoded twice, each time read back as a C string. */
  function DoubleDecoded(query: string): (d: string)
    ensures NoNul(d) && |d| <= |query|
  {
    CString(Decode(CString(Decode(query))))
  }

  /** The needle occurs at k and nowhere to its right. */
  ghost predicate LastAt(s: string, needle: string, k: int) {
    OccursAt(s, needle, k) && forall j :: k < j ==> !OccursAt(s, needle, j)
  }

  /**
   * The redirect target in a decoded query: the suffix from the last
   * "http://", or only when there is none, from the last "https://".
   */
  function RedirectUrl(d: string): (r: Option<string>)
    ensures r.Some? ==> ((exists k :: 0 <= k <= |d| && r.value == d[k..] && LastAt(d, "http://", k))
      || ((forall j :: !OccursAt(d, "http://", j)) && exists k :: 0 <= k <= |d| && r.value == d[k..] && LastAt(d, "https://", k)))
    ensures r.None? <==> (forall j :: !OccursAt(d, "http://", j)) && (forall j :: !OccursAt(d, "https://", j))
  {
    match LastOccurrence(d, "http://")
    case Some(k) => Some(d[k..])
    case None =>
      match LastOccurrence(d, "https://")
      case Some(k) => Some(d[k..])
      case None => None
  }

  /** The Referer vetoes a redirect to a URL it contains, unless it mentions "adurl". */
  predicate RefererVetoes(referer: Http.LookupResult, url: string) {
    referer.Found? && Contains(referer.value, url) && !Contains(referer.value, "adurl")
  }

  /**
   * The query asks for a redirect: non-empty, holding "=http" or
   * "%5Cx3dhttp" up to case (the source's second needle, "\x3dhttp", is
   * "=http" again).
   */
  predicate RedirectQuery(query: string) {
    query != [] && (CaseContains(query, "=http") || CaseContains(query, "%5Cx3dhttp"))
  }

  /**
   * handle_redirect: a redirecting query whose double decoding holds an
   * http or https URL not vetoed by the Referer sets Location to that URL
   * and status 307; otherwise -1 and nothing changes.  The Referer is read
   * only once a URL is found.
   */
  function HandleRedirect(c: Conn, query: string, referer: Http.LookupResult): (r: Handled)
    requires c.resp.Valid()
    ensures r.HandlerUndefined? <==> RedirectQuery(query) && RedirectUrl(DoubleDecoded(query)).Some? && referer.LookupUndefined?
    ensures r.Handled? ==> (r.rc == 0 <==> (RedirectQuery(query) && RedirectUrl(DoubleDecoded(query)).Some?
                                            && !RefererVetoes(referer, RedirectUrl(DoubleDecoded(query)).value)))
    ensures r.Handled? && r.rc != 0 ==> r.conn == c
    ensures r.Handled? && r.rc == 0 ==> (r.conn.resp.status == 307 && r.conn.str == c.str && r.conn.length == c.length
      && r.conn.filefd == c.filefd && r.conn.resp.version == c.resp.version
      && r.conn.resp.fields == Http.SetField(c.resp.fields, Http.Location, RedirectUrl(DoubleDecoded(query))).fields)
  {
    if !RedirectQuery(query) then Handled(-1, c)
    else
      match RedirectUrl(DoubleDecoded(query))
      case None => Handled(-1, c)
      case Some(url) =>
        if referer.LookupUndefined? then HandlerUndefined
        else if RefererVetoes(referer, url) then Handled(-1, c)
        else Handled(0, c.WithField(Http.Location, url).WithStatus(307))
  }

  /** The suffix from a link that no later "http://" follows is the redirect target. */
  lemma RedirectToLastLink(pre: string, url: string)
    requires IsPrefix("http://", url) && forall j :: 0 < j ==> !OccursAt(url, "http://", j)
    ensures RedirectUrl(pre + url) == Some(url)
  {
    var d := pre + url;
    assert d[|pre|..] == url;
    assert OccursAt(d, "http://", |pre|) by {
      assert d[|pre|..|pre| + 7] == url[..7];
    }
    forall j | |pre| < j
      ensures !OccursAt(d, "http://", j)
    {
      if OccursAt(d, "http://", j) {
        assert d[j..j + 7] == url[j - |pre|..j - |pre| + 7];
        assert OccursAt(url, "http://", j - |pre|);
      }
    }
  }

  /**
   * A click-tracking query "key=link" whose link holds no escape and no
   * later "http://" redirects to that link when there is no Referer:
   * Location is the link and the status 307.
   */
  lemma RedirectsToPlainLink(c: Conn, key: string, url: string)
    requires c.resp.Valid() && NoNul(key) && NoNul(url)
    requires forall i :: 0 <= i < |key| ==> key[i] != '%'
    requires forall i :: 0 <= i < |url| ==> url[i] != '%'
    requires IsPrefix("http://", url) && forall j :: 0 < j ==> !OccursAt(url, "http://", j)
    ensures HandleRedirect(c, key + "=" + url, Http.NotFound) == Handled(0, c.WithField(Http.Location, url).WithStatus(307))
  {
    var q := key + "=" + url;
    PlainQuery(key, url);
    assert (key + "=") + url == q;
    RedirectToLastLink(key + "=", url);
  }

  /** A query "key=link" without escapes decodes to itself and asks for a redirect. */
  lemma PlainQuery(key: string, url: string)
    requires NoNul(key) && NoNul(url) && IsPrefix("http://", url)
    requires forall i :: 0 <= i < |key| ==> key[i] != '%'
    requires forall i :: 0 <= i < |url| ==> url[i] != '%'
    ensures DoubleDecoded(key + "=" + url) == key + "=" + url
    ensures RedirectQuery(key + "=" + url)
  {
    var q := key + "=" + url;
    PlainConcat(key, url);
    assert Decode(q) == q by {
      DecodeWithoutPercent(q);
    }
    assert CString(q) == q by {
      CStringOfNoNul(q);
    }
    assert CaseOccursAt(q, "=http", |key|) by {
      assert q[|key|..|key| + 5] == "=" + url[..4];
    }
  }

  /** Joining two texts without '%' and NUL by '=' gives one without either. */
  lemma PlainConcat(key: string, url: string)
    requires NoNul(key) && NoNul(url)
    requires forall i :: 0 <= i < |key| ==> key[i] != '%'
    requires forall i :: 0 <= i < |url| ==> url[i] != '%'
    ensures var q := key + "=" + url; NoNul(q) && forall i :: 0 <= i < |q| ==> q[i] != '%'
  {
    var q := key + "=" + url;
    forall i | 0 <= i < |q|
      ensures q[i] != '%' && q[i] != '\0'
    {
      if i < |key| {
        assert q[i] == key[i];
      } else if i > |key| {
        assert q[i] == url[i - |key| - 1];
      }
    }
  }

  /** Decoding a double encoding twice gives back the text, which the source's double decode relies on. */
  lemma DoubleDecodeUndoesDoubleEncoding(u: string)
    requires NoNul(u) && forall i :: 0 <= i < |u| ==> u[i] as int < 256
    ensures DoubleDecoded(EncodeAll(EncodeAll(u))) == u
  {
    var e := EncodeAll(u);
    DecodeEncodeAll(e);
    CStringOfNoNul(e);
    DecodeEncodeAll(u);
    CStringOfNoNul(u);
  }

  // ---------------------------------------------------------------------------
  // handle_jsclose and the decoy

  /**
   * handle_jsclose fires for the htm row, or for the rows without an
   * extension (no extension, or one the table lacks) when an Accept header
   * other than the any-type pattern is present.  Accept is read only then.
   */
  predicate JsCloseFires(mime: MimeEntry, accept: Http.LookupResult) {
    mime.ext == Some("htm") || (mime.ext.None? && accept.Found? && accept.value != "*" + "/" + "*")
  }

  /** The bytes of content_jsclose. */
  function JsCloseBody(): (b: seq<byte>)
    ensures |b| == |JsClosePage| == 147
  {
    Bytes(JsClosePage)
  }

  /**
   * handle_jsclose: when it fires, the page is announced as text/html with
   * status 200 and its length, and sent only to a GET.
   */
  function HandleJsClose(c: Conn, mime: MimeEntry, meth: Http.Method, accept: Http.LookupResult): (r: Handled)
    requires c.resp.Valid()
    ensures r.HandlerUndefined? <==> mime.ext.None? && accept.LookupUndefined?
    ensures r.Handled? ==> (r.rc == 0 <==> JsCloseFires(mime, accept))
    ensures r.Handled? && r.rc != 0 ==> r.conn == c
    ensures r.Handled? && r.rc == 0 ==> (r.conn.resp.status == 200 && r.conn.length == 147 && r.conn.filefd == c.filefd
      && r.conn.str == (if meth == Http.Get then Some(JsCloseBody()) else c.str) && r.conn.resp.version == c.resp.version
      && r.conn.resp.fields == Http.SetField(c.resp.fields, Http.ContentType, Some("text/html")).fields)
  {
    if mime.ext.None? && accept.LookupUndefined? then HandlerUndefined
    else if !JsCloseFires(mime, accept) then Handled(-1, c)
    else
      var c' := c.WithField(Http.ContentType, "text/html").WithStatus(200).(length := |JsClosePage|);
      Handled(0, if meth == Http.Get then c'.(str := Some(JsCloseBody())) else c')
  }

  /**
   * The last rule of serve: status 200; a row with a payload announces its
   * size and sends it to a GET; any other row announces length 0.
   */
  function Decoy(c: Conn, mime: MimeEntry, meth: Http.Method): (r: Conn)
    ensures r.resp.status == 200 && r.length == mime.ResponseSize()
    ensures r.str == (if mime.response.Some? && meth == Http.Get then mime.response else c.str)
    ensures r.filefd == c.filefd && r.resp.fields == c.resp.fields && r.resp.version == c.resp.version
  {
    var c' := c.(length := mime.ResponseSize()).WithStatus(200);
    if mime.response.Some? && meth == Http.Get then c'.(str := mime.response) else c'
  }

  // ---------------------------------------------------------------------------
  // serve

  /**
   * The outcome of serve: its return code, the error it reports and the
   * record, or Undefined where a handler it runs is.
   */
  datatype Served = Served(rc: int, error: int, conn: Conn) | ServeUndefined

  /** The response's Connection slot is as it was. */
  predicate KeepsConnectionField(c: Conn, c': Conn)
    requires c.resp.Valid() && c'.resp.Valid()
  {
    c'.resp.fields[Http.FieldGetIndex(Http.Connection)] == c.resp.fields[Http.FieldGetIndex(Http.Connection)]
  }

  /** The response has a Content-type. */
  predicate HasContentType(c: Conn)
    requires c.resp.Valid()
  {
    c.resp.fields[Http.FieldGetIndex(Http.ContentType)].Some?
  }

  /** The generate_204 URLs, compared with strcasecmp. */
  predicate Is204Path(filename: string) {
    CaseEq(filename, "/generate_204") || CaseEq(filename, "/gen_204")
  }

  /**
   * The request fields serve reads, with the MIME row of the file name and
   * the header lookups it may make already resolved.
   */
  datatype Query = Query(meth: Http.Method, filename: string, query: string, mime: MimeEntry,
                         host: Http.LookupResult, referer: Http.LookupResult, accept: Http.LookupResult)

  /** What serve sees of a parsed request: its header lines are looked up from header_start. */
  function QueryOf(req: Http.Request, buf: string): (q: Query)
    requires NoNul(buf) && req.headerStart <= |buf|
    ensures q.meth == req.requestMethod && q.filename == req.filename && q.query == req.query
    ensures q.mime == MimeOf(req.filename)
  {
    Query(req.requestMethod, req.filename, req.query, MimeOf(req.filename),
          Http.Lookup(buf, req.headerStart, Http.Hostname),
          Http.Lookup(buf, req.headerStart, Http.Referer),
          Http.Lookup(buf, req.headerStart, Http.Accept))
  }

  /** The redirect rule of serve: handle_redirect, when the socket enables it. */
  function RedirectRule(c: Conn, sock: Config.Socket, q: Query): (r: Handled)
    requires c.resp.Valid()
    ensures r.Handled? && r.rc != 0 ==> r.conn == c
    ensures r.Handled? && r.rc == 0 ==> r.conn.resp.Valid() && r.conn.resp.status == 307 && r.conn.resp.version == c.resp.version
    ensures r.Handled? && r.rc == 0 ==> KeepsConnectionField(c, r.conn) && (HasContentType(c) ==> HasContentType(r.conn))
    ensures r.Handled? ==> r.conn.str == c.str && r.conn.filefd == c.filefd
  {
    Http.FieldIndexBijective();
    if Config.Has(sock.options, Config.DoRedirect) then HandleRedirect(c, q.query, q.referer) else Handled(-1, c)
  }

  /** The close-script rule of serve: handle_jsclose, when the socket enables it. */
  function CloseRule(c: Conn, sock: Config.Socket, q: Query): (r: Handled)
    requires c.resp.Valid()
    ensures r.Handled? && r.rc != 0 ==> r.conn == c
    ensures r.Handled? && r.rc == 0 ==> r.conn.resp.Valid() && r.conn.resp.status == 200 && r.conn.resp.version == c.resp.version
    ensures r.Handled? && r.rc == 0 ==> KeepsConnectionField(c, r.conn) && HasContentType(r.conn)
    ensures r.Handled? ==> r.conn.filefd == c.filefd && (q.meth != Http.Get ==> r.conn.str == c.str)
  {
    Http.FieldIndexBijective();
    if Config.Has(sock.options, Config.DoClose) then HandleJsClose(c, q.mime, q.meth, q.accept) else Handled(-1, c)
  }

  /** The rules of serve after the file rule declined: 204, redirect, close script, decoy. */
  function LaterRules(c: Conn, sock: Config.Socket, q: Query): (r: Served)
    requires c.resp.Valid()
    ensures r.Served? ==> r.rc == 0 && r.error == 0 && r.conn.resp.Valid() && r.conn.resp.version == c.resp.version
    ensures r.Served? ==> r.conn.resp.status in {200, 204, 307}
    ensures r.Served? ==> KeepsConnectionField(c, r.conn) && (HasContentType(c) ==> HasContentType(r.conn))
    ensures r.Served? && q.meth != Http.Get ==> r.conn.str == c.str && r.conn.filefd == c.filefd
  {
    if Config.Has(sock.options, Config.Do204) && Is204Path(q.filename) then Served(0, 0, c.WithStatus(204))
    else
      var d := RedirectRule(c, sock, q);
      if d.HandlerUndefined? then ServeUndefined
      else if d.rc == 0 then Served(0, 0, d.conn)
      else
        var j := CloseRule(c, sock, q);
        if j.HandlerUndefined? then ServeUndefined
        else if j.rc == 0 then Served(0, 0, j.conn)
        else Served(0, 0, Decoy(c, q.mime, q.meth))
  }

  /**
   * The file rule finds something to send: a serve path, a safe file name
   * longer than "/", and a regular file at the target it names.
   */
  predicate FileServes(sock: Config.Socket, q: Query, fs: FileSystem) {
    var sp := sock.ServePath();
    && sp != [] && Ascii(q.filename) && IsSafeFilename(q.filename) && |q.filename| > 1
    && TargetOf(sp, q.filename, q.host).Target? && IsRegular(fs, TargetOf(sp, q.filename, q.host).path)
  }

  /**
   * The file rule of serve: tried only with a serve path and a safe file
   * name.  is_safe_filename passes each character to isprint, which is
   * undefined for the negative values of bytes above 127.
   */
  function FileRule(c: Conn, sock: Config.Socket, q: Query, fs: FileSystem): (r: Handled)
    ensures r.Handled? && r.rc != 0 ==> r.conn.resp == c.resp || r.conn.resp == c.resp.(status := r.conn.resp.status)
    ensures r.Handled? ==> r.conn.resp.fields == c.resp.fields && r.conn.resp.version == c.resp.version
    ensures r.Handled? && r.rc == 0 ==> r.conn.resp.status == 200
    ensures r.Handled? ==> r.conn.str == c.str && (q.meth != Http.Get ==> r.conn.filefd == c.filefd)
    ensures r.Handled? && (q.meth == Http.Get || q.meth == Http.Head) ==> (r.rc == 0 <==> FileServes(sock, q, fs))
    ensures r.Handled? && r.rc != 0 && (q.meth == Http.Get || q.meth == Http.Head) ==> r.conn == c.WithStatus(r.conn.resp.status)
  {
    var sp := sock.ServePath();
    if sp == [] then Handled(-1, c)
    else if !Ascii(q.filename) then HandlerUndefined
    else if IsSafeFilename(q.filename) then HandleFile(c, sp, q.meth, q.filename, q.host, fs)
    else Handled(-1, c)
  }

  /**
   * serve: methods other than GET and HEAD are refused with 501; otherwise
   * Content-type is set from the extension, then the file, 204, redirect,
   * close-script and decoy rules are tried in that order and the first that
   * returns 0 answers.  The decoy always does.
   */
  function Serve(c: Conn, sock: Config.Socket, q: Query, fs: FileSystem): (r: Served)
    requires c.resp.Valid()
    ensures r.Served? ==> r.conn.resp.Valid() && r.conn.resp.version == c.resp.version
    ensures r.Served? ==> (r.rc == 0 <==> q.meth == Http.Get || q.meth == Http.Head)
    ensures r.Served? && r.rc != 0 ==> r.error == 501 && r.conn == c
    ensures r.Served? && r.rc == 0 ==> r.error == 0 && r.conn.resp.status in {200, 204, 307} && HasContentType(r.conn)
    ensures r.Served? ==> KeepsConnectionField(c, r.conn)
    ensures r.Served? && q.meth != Http.Get ==> r.conn.str == c.str && r.conn.filefd == c.filefd
  {
    Http.FieldIndexBijective();
    if q.meth != Http.Get && q.meth != Http.Head then Served(-1, 501, c)
    else
      var c1 := c.WithField(Http.ContentType, q.mime.typestr);
      var f := FileRule(c1, sock, q, fs);
      if f.HandlerUndefined? then ServeUndefined
      else if f.rc == 0 then Served(0, 0, f.conn)
      else LaterRules(f.conn, sock, q)
  }

  /** The record's Content-type slot. */
  function ContentTypeOf(c: Conn): (t: Option<string>)
    requires c.resp.Valid()
    ensures t.Some? <==> HasContentType(c)
  {
    c.resp.fields[Http.FieldGetIndex(Http.ContentType)]
  }

  /** The record's Location slot. */
  function LocationOf(c: Conn): Option<string>
    requires c.resp.Valid()
  {
    c.resp.fields[Http.FieldGetIndex(Http.Location)]
  }

  /** The 204 rule fires: the socket enables it and the name is a generate_204 URL. */
  predicate NoContentFires(sock: Config.Socket, q: Query) {
    Config.Has(sock.options, Config.Do204) && Is204Path(q.filename)
  }

  /** The redirect rule fires: the socket enables it and handle_redirect finds a URL the Referer does not veto. */
  predicate RedirectFires(sock: Config.Socket, q: Query) {
    && Config.Has(sock.options, Config.DoRedirect) && RedirectQuery(q.query)
    && RedirectUrl(DoubleDecoded(q.query)).Some? && !RefererVetoes(q.referer, RedirectUrl(DoubleDecoded(q.query)).value)
  }

  /** The close-script rule fires: the socket enables it and handle_jsclose accepts the row. */
  predicate CloseFires(sock: Config.Socket, q: Query) {
    Config.Has(sock.options, Config.DoClose) && JsCloseFires(q.mime, q.accept)
  }

  /**
   * serve tries the file rule first: when it finds a regular file, the
   * reply is that file with status 200, its size as length, sent by
   * descriptor to a GET, under the Content-type of the name's row.
   */
  lemma ServeByFile(c: Conn, sock: Config.Socket, q: Query, fs: FileSystem)
    requires c.resp.Valid() && (q.meth == Http.Get || q.meth == Http.Head)
    requires FileServes(sock, q, fs) && !q.host.LookupUndefined?
    ensures var r := Serve(c, sock, q, fs); var path := TargetOf(sock.ServePath(), q.filename, q.host).path;
      && r.Served? && r.rc == 0 && r.conn.resp.status == 200 && r.conn.length == Int32(fs[path].value)
      && r.conn.filefd == (if q.meth == Http.Get then Some(path) else c.filefd) && r.conn.str == c.str
      && ContentTypeOf(r.conn) == Some(q.mime.typestr)
  {
  }

  /**
   * Next comes the 204 rule: when the file rule finds nothing and the name
   * is a generate_204 URL, only the status changes to 204; length, body and
   * descriptor stay as they were.
   */
  lemma ServeBy204(c: Conn, sock: Config.Socket, q: Query, fs: FileSystem)
    requires c.resp.Valid() && (q.meth == Http.Get || q.meth == Http.Head)
    requires Serve(c, sock, q, fs).Served? && !FileServes(sock, q, fs) && NoContentFires(sock, q)
    ensures var r := Serve(c, sock, q, fs);
      && r.rc == 0 && r.conn.resp.status == 204 && r.conn.length == c.length && r.conn.str == c.str
      && r.conn.filefd == c.filefd && ContentTypeOf(r.conn) == Some(q.mime.typestr)
  {
  }

  /**
   * Then the redirect rule: when neither earlier rule answers and the query
   * redirects, the status is 307 and Location is the URL the twice-decoded
   * query names; length, body and descriptor stay as they were.
   */
  lemma ServeByRedirect(c: Conn, sock: Config.Socket, q: Query, fs: FileSystem)
    requires c.resp.Valid() && (q.meth == Http.Get || q.meth == Http.Head)
    requires Serve(c, sock, q, fs).Served? && !FileServes(sock, q, fs) && !NoContentFires(sock, q)
    requires RedirectFires(sock, q)
    ensures var r := Serve(c, sock, q, fs);
      && r.rc == 0 && r.conn.resp.status == 307 && LocationOf(r.conn) == RedirectUrl(DoubleDecoded(q.query))
      && r.conn.length == c.length && r.conn.str == c.str && r.conn.filefd == c.filefd
      && ContentTypeOf(r.conn) == Some(q.mime.typestr)
  {
  }

  /**
   * Then the close-script rule: when no earlier rule answers and it fires,
   * the status is 200, the type text/html and the length 147, and a GET
   * gets the closing page.
   */
  lemma ServeByClose(c: Conn, sock: Config.Socket, q: Query, fs: FileSystem)
    requires c.resp.Valid() && (q.meth == Http.Get || q.meth == Http.Head)
    requires Serve(c, sock, q, fs).Served? && !FileServes(sock, q, fs) && !NoContentFires(sock, q)
    requires !RedirectFires(sock, q) && CloseFires(sock, q)
    ensures var r := Serve(c, sock, q, fs);
      && r.rc == 0 && r.conn.resp.status == 200 && ContentTypeOf(r.conn) == Some("text/html")
      && r.conn.length == 147 && r.conn.str == (if q.meth == Http.Get then Some(JsCloseBody()) else c.str)
      && r.conn.filefd == c.filefd
  {
  }

  /**
   * Last the decoy: when no other rule answers, the status is 200 under the
   * row's Content-type, the length is the row's payload size (0 without
   * one), and a GET gets the payload.
   */
  lemma ServeByDecoy(c: Conn, sock: Config.Socket, q: Query, fs: FileSystem)
    requires c.resp.Valid() && (q.meth == Http.Get || q.meth == Http.Head)
    requires Serve(c, sock, q, fs).Served? && !FileServes(sock, q, fs) && !NoContentFires(sock, q)
    requires !RedirectFires(sock, q) && !CloseFires(sock, q)
    ensures var r := Serve(c, sock, q, fs);
      && r.rc == 0 && r.conn.resp.status == 200 && ContentTypeOf(r.conn) == Some(q.mime.typestr)
      && r.conn.length == q.mime.ResponseSize() && r.conn.filefd == c.filefd
      && r.conn.str == (if q.mime.response.Some? && q.meth == Http.Get then q.mime.response else c.str)
    ensures Serve(c, sock, q, fs).conn.resp.fields == c.WithField(Http.ContentType, q.mime.typestr).resp.fields
  {
  }

  // ---------------------------------------------------------------------------
  // connection_new and connection_write

  /** content_noSSL as sent: sizeof - 1 keeps the byte its comment calls the terminator. */
  const NoSslAsWritten: seq<byte> := [0x15, 0x03, 0x00, 0x00, 0x02, 0x02, 0x00, 0x00]

  /** The TLS alert record content_noSSL describes: a 5-byte record header and a 2-byte fatal close_notify alert. */
  const NoSslAlert: seq<byte> := [0x15, 0x03, 0x00, 0x00, 0x02, 0x02, 0x00]

  /** A record's length as its header states it (bytes 3 and 4, big-endian), plus the header. */
  function RecordSize(r: seq<byte>): int
    requires |r| >= 5
  {
    5 + r[3] as int * 256 + r[4] as int
  }

  /**
   * The reply to a TLS ClientHello: the record header announces 2 bytes of
   * alert, so the record is 7 bytes, and the eighth byte sent is left over
   * for the peer to read as the start of another record.
   */
  lemma NoSslTrailingByte()
    ensures |NoSslAsWritten| == RecordSize(NoSslAsWritten) + 1
    ensures NoSslAsWritten[..RecordSize(NoSslAsWritten)] == NoSslAlert
  {
  }

  /** What goes after the header: a file by its descriptor, a constant body, or nothing. */
  datatype Body = NoBody | FileBody(path: string, count: int) | BytesBody(bytes: seq<byte>)

  /** What the server sends on a connection, or Undefined where the request handling is. */
  datatype Reply = Silent | RawReply(bytes: seq<byte>) | HttpReply(header: string, body: Body) | ReplyUndefined

  /** The record connection_new starts from: no body, length -1, version 1.0 and "Connection: close". */
  function InitialConn(): (c: Conn)
    ensures c.resp.Valid() && c.length == -1 && c.str.None? && c.filefd.None?
    ensures c.resp.version == Http.Http10
    ensures c.resp.fields[Http.FieldGetIndex(Http.Connection)] == Some("close")
    ensures forall i :: 0 <= i < Http.HeaderFields && i != Http.FieldGetIndex(Http.Connection) ==> c.resp.fields[i].None?
  {
    var empty := seq(Http.HeaderFields, _ => None);
    Conn(None, -1, None, Http.Response(Http.Http10, 0, Http.SetField(empty, Http.Connection, Some("close")).fields))
  }

  /** The body connection_write sends after the header. */
  function BodyOf(c: Conn): Body {
    if c.filefd.Some? then FileBody(c.filefd.value, c.length)
    else if c.str.Some? then BytesBody(c.str.value)
    else NoBody
  }

  /** The response connection_write serialises: Content-length is added when the length is not -1 or below. */
  function Announced(c: Conn): (resp: Http.Response)
    requires c.resp.Valid()
    ensures resp.Valid() && resp.status == c.resp.status && resp.version == c.resp.version
    ensures resp.fields[Http.FieldGetIndex(Http.ContentLength)] ==
      (if c.length > -1 then Some(Decimal(c.length)) else c.resp.fields[Http.FieldGetIndex(Http.ContentLength)])
    ensures forall i :: 0 <= i < Http.HeaderFields && i != Http.FieldGetIndex(Http.ContentLength) ==> resp.fields[i] == c.resp.fields[i]
  {
    if c.length > -1 then c.WithField(Http.ContentLength, Decimal(c.length)).resp else c.resp
  }

  /**
   * connection_write: the header, filled into the response buffer, then the
   * body; a header that does not fit the buffer sends nothing.
   */
  function Write(c: Conn): (r: Reply)
    requires c.resp.Valid()
    ensures r.Silent? <==> |Http.HeaderText(Announced(c))| > CharBufSize - 1
    ensures r.HttpReply? <==> !r.Silent?
    ensures r.HttpReply? ==> r.header == Http.HeaderText(Announced(c)) && r.body == BodyOf(c)
  {
    var header := Http.HeaderText(Announced(c));
    if |header| > CharBufSize - 1 then Silent else HttpReply(header, BodyOf(c))
  }

  /** The received bytes as the C string the parser reads. */
  function RequestText(received: seq<byte>): (buf: string)
    ensures NoNul(buf) && |buf| <= |received|
  {
    CString(Chars(received))
  }

  /** A serve outcome with its error, if any, turned into the status. */
  function ErrorToStatus(s: Served): (r: Served)
    requires s.Served? ==> s.conn.resp.Valid()
    ensures r.Served? <==> s.Served?
    ensures r.Served? ==> r.conn.resp.Valid() && r.rc == s.rc && r.error == s.error
    ensures r.Served? ==> r.conn.resp.status == (if s.error != 0 then s.error else s.conn.resp.status)
    ensures r.Served? ==> r.conn == s.conn.(resp := r.conn.resp) && r.conn.resp.fields == s.conn.resp.fields
  {
    if s.Served? && s.error != 0 then s.(conn := s.conn.WithStatus(s.error)) else s
  }

  /**
   * What connection_new hands to connection_write for a request that is no
   * TLS handshake, given what http_header_parse made of it: a parse error or
   * a serve error becomes the status.
   */
  function Answer(buf: string, p: Http.ParseResult, sock: Config.Socket, fs: FileSystem): (r: Served)
    requires NoNul(buf) && (p.Parsed? ==> p.req.headerStart <= |buf|) && (p.ParseFailed? ==> p.error in {400, 501})
    ensures r.ServeUndefined? <==> p.ParseUndefined? || (p.Parsed? && Serve(InitialConn(), sock, QueryOf(p.req, buf), fs).ServeUndefined?)
    ensures r.Served? ==> r.conn.resp.Valid() && r.conn.resp.version == Http.Http10
    ensures r.Served? ==> r.conn.resp.status in {200, 204, 307, 400, 501}
    ensures r.Served? ==> r.conn.resp.fields[Http.FieldGetIndex(Http.Connection)] == Some("close")
    ensures p.ParseFailed? ==> r.conn.resp.status == p.error && r.conn.length == -1 && BodyOf(r.conn) == NoBody
  {
    if p.ParseUndefined? then ServeUndefined
    else if p.ParseFailed? then ErrorToStatus(Served(-1, p.error, InitialConn()))
    else ErrorToStatus(Serve(InitialConn(), sock, QueryOf(p.req, buf), fs))
  }

  /**
   * connection_new after the read: nothing for an empty read, the 8 bytes
   * of content_noSSL for a read starting with 0x16 (one byte more than the
   * alert record they hold), otherwise the answer to the request.
   */
  function Respond(received: seq<byte>, sock: Config.Socket, fs: FileSystem): (r: Reply)
    ensures received == [] ==> r == Silent
    ensures r.RawReply? <==> received != [] && received[0] == 0x16
    ensures r.RawReply? ==> r.bytes == NoSslAsWritten && |r.bytes| == RecordSize(r.bytes) + 1
  {
    if received == [] then Silent
    else if received[0] == 0x16 then RawReply(NoSslAsWritten)
    else
      var buf := RequestText(received);
      var a := Answer(buf, Http.ParseRequest(buf), sock, fs);
      if a.ServeUndefined? then ReplyUndefined else Write(a.conn)
  }

  /**
   * connection_new with the TLS alert corrected: a read starting with 0x16
   * is answered with the 7-byte record alone; anything else as before.
   */
  function RespondCorrected(received: seq<byte>, sock: Config.Socket, fs: FileSystem): (r: Reply)
    ensures r.RawReply? <==> received != [] && received[0] == 0x16
    ensures !r.RawReply? ==> r == Respond(received, sock, fs)
  {
    if received != [] && received[0] == 0x16 then RawReply(NoSslAlert) else Respond(received, sock, fs)
  }

  /**
   * With the correction, a TLS handshake is answered with exactly one
   * record: a fatal alert (level 2, description 0) whose header states the
   * length of what is sent, which is what the source sends without its last
   * byte.
   */
  lemma HandshakeGetsOneAlertRecord(received: seq<byte>, sock: Config.Socket, fs: FileSystem)
    requires received != [] && received[0] == 0x16
    ensures RespondCorrected(received, sock, fs) == RawReply(NoSslAlert)
    ensures |NoSslAlert| == RecordSize(NoSslAlert) && NoSslAlert[0] == 0x15 && NoSslAlert[5] == 2 && NoSslAlert[6] == 0
    ensures Respond(received, sock, fs).bytes == NoSslAlert + [0x00]
  {
  }

  /**
   * End to end: a request that is no TLS handshake and gets an HTTP answer
   * is answered with an HTTP/1.0 status line carrying one of the codes 200,
   * 204, 307, 400 and 501 with that code's own reason phrase, and the
   * header holds the line "Connection: close"; a request the parser refuses
   * gets the parser's code and no body.
   */
  lemma RespondEndToEnd(received: seq<byte>, sock: Config.Socket, fs: FileSystem)
    requires received != [] && received[0] != 0x16
    requires Respond(received, sock, fs).HttpReply?
    ensures var buf := RequestText(received);
      var code := Answer(buf, Http.ParseRequest(buf), sock, fs).conn.resp.status;
      && code in {200, 204, 307, 400, 501} && Http.GetStatus(code).code == code
      && IsPrefix("HTTP/1.0" + " " + Decimal(code) + " " + Http.GetStatus(code).msg + "\r\n", Respond(received, sock, fs).header)
    ensures Contains(Respond(received, sock, fs).header, "Connection: close\r\n")
    ensures var p := Http.ParseRequest(RequestText(received));
      p.ParseFailed? ==> Answer(RequestText(received), p, sock, fs).conn.resp.status == p.error
                         && Respond(received, sock, fs).body == NoBody
  {
    var buf := RequestText(received);
    var a := Answer(buf, Http.ParseRequest(buf), sock, fs);
    assert Respond(received, sock, fs) == Write(a.conn);
    WrittenHeader(a.conn);
  }

  /** A generate_204 URL holds no dot, so it selects no_mime, which has no payload. */
  lemma NoContentPathHasNoPayload(filename: string)
    requires Is204Path(filename)
    ensures MimeOf(filename) == NoMime
  {
    forall i | 0 <= i < |filename|
      ensures filename[i] != '.'
    {
      if CaseEq(filename, "/generate_204") {
        assert ToLower(filename[i]) == ToLower("/generate_204"[i]);
      } else {
        assert ToLower(filename[i]) == ToLower("/gen_204"[i]);
      }
    }
    if Extension(filename).Some? {
      assert false;
    }
  }

  /** The row a file name selects carries a payload only if it is one of the image and Flash rows, none of them htm. */
  lemma PayloadRowIsListed(filename: string)
    requires MimeOf(filename).response.Some?
    ensures MimeOf(filename).ext.Some? && MimeOf(filename).ext != Some("htm")
    ensures |MimeOf(filename).typestr| <= 29 && |MimeOf(filename).response.value| < 1000
  {
    MimeForIsFirstMatch(Extension(filename));
    PayloadRows();
    assert forall k :: 0 <= k < 6 ==> Mimes[k].ext.Some? && Mimes[k].ext != Some("htm") && |Mimes[k].typestr| <= 29;
  }

  /**
   * The answer to a GET whose file name selects a row with a payload, on a
   * socket without a serve path and with a query that asks for no
   * redirect: the decoy of that row, with no field but Connection and
   * Content-type set.
   */
  lemma DecoyAnswer(buf: string, p: Http.ParseResult, sock: Config.Socket, fs: FileSystem)
    requires NoNul(buf) && p.Parsed? && p.req.headerStart <= |buf| && p.req.requestMethod == Http.Get
    requires MimeOf(p.req.filename).response.Some? && !RedirectQuery(p.req.query) && sock.ServePath() == []
    ensures var a := Answer(buf, p, sock, fs); var m := MimeOf(p.req.filename);
      && a.Served? && a.conn.resp.status == 200 && a.conn.resp.version == Http.Http10
      && a.conn.filefd.None? && a.conn.str == m.response && a.conn.length == |m.response.value|
      && a.conn.resp.fields == InitialConn().WithField(Http.ContentType, m.typestr).resp.fields
  {
    var q := QueryOf(p.req, buf);
    var c := InitialConn();
    PayloadRowIsListed(p.req.filename);
    if Is204Path(q.filename) {
      NoContentPathHasNoPayload(q.filename);
    }
    assert Serve(c, sock, q, fs).Served?;
    ServeByDecoy(c, sock, q, fs);
  }

  /**
   * What connection_write sends for a decoy record of status 200 with a
   * Content-type of at most 29 characters and a length below 1000: the
   * "200 OK" status line, the Content-type and Content-length lines, and
   * the body.
   */
  lemma DecoyWritten(c: Conn, t: string)
    requires c.resp.Valid() && c.resp.status == 200 && c.resp.version == Http.Http10
    requires c.resp.fields == InitialConn().WithField(Http.ContentType, t).resp.fields
    requires |t| <= 29 && 0 <= c.length < 1000
    ensures Write(c).HttpReply? && Write(c).body == BodyOf(c)
    ensures IsPrefix("HTTP/1.0 " + Decimal(200) + " OK\r\n", Write(c).header)
    ensures Contains(Write(c).header, "Content-type: " + t + "\r\n")
    ensures Contains(Write(c).header, "Content-length: " + Decimal(c.length) + "\r\n")
  {
    var resp := Announced(c);
    Http.FieldIndexBijective();
    DecimalBelowThousand(c.length);
    assert forall i :: 0 <= i < Http.HeaderFields && resp.fields[i].Some? ==> |resp.fields[i].value| <= 29;
    Http.HeaderTextBound(resp, 29);
    Http.OkStatusLine(resp);
    Http.HeaderSaysType(resp, t);
    Http.HeaderSaysLength(resp, Decimal(c.length));
  }

  /**
   * End to end, the decoy: a GET whose file name selects a row with a
   * payload, on a socket without a serve path and with a query that asks
   * for no redirect, is answered "200 OK" with that row's Content-type, the
   * payload's size as Content-length and the payload as body.
   */
  lemma PayloadRequestGetsDecoy(received: seq<byte>, sock: Config.Socket, fs: FileSystem)
    requires received != [] && received[0] != 0x16
    requires var p := Http.ParseRequest(RequestText(received));
      p.Parsed? && p.req.requestMethod == Http.Get && MimeOf(p.req.filename).response.Some? && !RedirectQuery(p.req.query)
    requires sock.ServePath() == []
    ensures var m := MimeOf(Http.ParseRequest(RequestText(received)).req.filename);
      var r := Respond(received, sock, fs);
      && r.HttpReply? && r.body == BytesBody(m.response.value)
      && IsPrefix("HTTP/1.0 " + Decimal(200) + " OK\r\n", r.header)
      && Contains(r.header, "Content-type: " + m.typestr + "\r\n")
      && Contains(r.header, "Content-length: " + Decimal(|m.response.value|) + "\r\n")
  {
    var buf := RequestText(received);
    var p := Http.ParseRequest(buf);
    var m := MimeOf(p.req.filename);
    PayloadRowIsListed(p.req.filename);
    DecoyAnswer(buf, p, sock, fs);
    var a := Answer(buf, p, sock, fs);
    assert Respond(received, sock, fs) == Write(a.conn);
    DecoyWritten(a.conn, m.typestr);
  }

  /** The reply to "GET /x.gif": the name selects the gif row, whose payload is the 42-byte image. */
  lemma GifNameSelectsGifRow()
    ensures MimeOf("/x.gif") == Mimes[0] && Mimes[0].typestr == "image/gif" && Mimes[0].response == Some(GifPayload)
  {
    var f := "/x.gif";
    assert f[2] == '.';
    var e := Extension(f);
    assert e.Some?;
    assert |e.value| == 4 by {
      assert f[|f| - |e.value|] == e.value[0];
    }
    assert e.value == ".gif";
    assert ExtMatches("gif", Mimes[0]);
  }

  /**
   * The header connection_write sends for a record of a status from the
   * table, with "Connection: close" set: its status line, and the
   * Connection line among the fields.
   */
  lemma WrittenHeader(c: Conn)
    requires c.resp.Valid() && Write(c).HttpReply? && c.resp.version == Http.Http10
    requires c.resp.status in {200, 204, 307, 400, 501}
    requires c.resp.fields[Http.FieldGetIndex(Http.Connection)] == Some("close")
    ensures Http.GetStatus(c.resp.status).code == c.resp.status
    ensures IsPrefix("HTTP/1.0" + " " + Decimal(c.resp.status) + " " + Http.GetStatus(c.resp.status).msg + "\r\n", Write(c).header)
    ensures Contains(Write(c).header, "Connection: close\r\n")
  {
    var resp := Announced(c);
    assert Write(c).header == Http.HeaderText(resp);
    Http.FieldIndexBijective();
    Http.ClosedResponseLines(resp);
  }

  /**
   * The header connection_write sends starts with the status line of the
   * record, ends with an empty line, and carries "Content-length: " and the
   * length's digits as a line of its own whenever the length is above -1.
   */
  lemma WrittenLayout(c: Conn)
    requires c.resp.Valid() && Write(c).HttpReply?
    ensures IsPrefix(Http.StatusLine(c.resp), Write(c).header)
    ensures var h := Write(c).header; |h| >= 4 && h[|h| - 4..] == "\r\n\r\n"
    ensures c.length > -1 ==> Contains(Write(c).header, "Content-length: " + Decimal(c.length) + "\r\n")
  {
    var resp := Announced(c);
    assert Http.StatusLine(resp) == Http.StatusLine(c.resp);
    Http.HeaderTextEndsEmptyLine(resp);
    if c.length > -1 {
      Http.HeaderSaysLength(resp, Decimal(c.length));
    }
  }

  /**
   * A HEAD request is answered with a header and no body: no rule of serve
   * gives a HEAD request a descriptor or a constant body to send.
   */
  lemma HeadGetsNoBody(received: seq<byte>, sock: Config.Socket, fs: FileSystem)
    requires received != [] && received[0] != 0x16
    requires var p := Http.ParseRequest(RequestText(received)); p.Parsed? && p.req.requestMethod == Http.Head
    requires Respond(received, sock, fs).HttpReply?
    ensures Respond(received, sock, fs).body == NoBody
  {
    var buf := RequestText(received);
    var p := Http.ParseRequest(buf);
    var s := Serve(InitialConn(), sock, QueryOf(p.req, buf), fs);
    var a := Answer(buf, p, sock, fs);
    assert a == ErrorToStatus(s);
    assert a.conn.str.None? && a.conn.filefd.None?;
    assert Respond(received, sock, fs) == Write(a.conn);
  }

  /**
   * connection_write: Content-length is set when the length is not -1 or
   * below, the header is filled into the response buffer with room for its
   * NUL, and the body follows; a header that does not fit sends nothing.
   */
  method WriteConnection(c: Conn) returns (reply: Reply)
    requires c.resp.Valid()
    ensures reply == Write(c)
  {
    var resp := c.resp;
    if c.length > -1 {
      resp := resp.(fields := Http.SetField(resp.fields, Http.ContentLength, Some(Decimal(c.length))).fields);
    }
    assert resp == Announced(c);
    var buffer := new char[CharBufSize];
    var n := Http.Fill(resp, buffer, CharBufSize - 1);
    if n < 0 {
      return Silent;
    }
    reply := HttpReply(buffer[..n], BodyOf(c));
  }

  /**
   * connection_new once the request is read: an empty read is dropped, a
   * TLS handshake is answered with the 8 bytes of content_noSSL, and
   * anything else is parsed, served and written.
   */
  method ConnectionNew(received: seq<byte>, sock: Config.Socket, fs: FileSystem) returns (reply: Reply)
    requires !Respond(received, sock, fs).ReplyUndefined?
    ensures reply == Respond(received, sock, fs)
  {
    if |received| == 0 {
      return Silent;
    }
    if received[0] == 0x16 {
      return RawReply(NoSslAsWritten);
    }
    var buf := RequestText(received);
    var p := Http.HttpHeaderParse(buf);
    var a := Answer(buf, p, sock, fs);
    reply := WriteConnection(a.conn);
  }

  // ---------------------------------------------------------------------------
  // The Content-length buffer

  function Pow10(k: nat): (p: nat)
    ensures p >= 1
  {
    if k == 0 then 1 else 10 * Pow10(k - 1)
  }

  /** A number below 10^k has at most k digits. */
  lemma {:induction false} DecimalShort(n: nat, k: nat)
    requires 1 <= k && n < Pow10(k)
    ensures |Decimal(n)| <= k
  {
    if n >= 10 {
      DecimalShort(n / 10, k - 1);
    }
  }

  /** A number of at least 10^k has more than k digits. */
  lemma {:induction false} DecimalLong(n: nat, k: nat)
    requires Pow10(k) <= n
    ensures |Decimal(n)| > k
  {
    if k > 0 {
      DecimalLong(n / 10, k - 1);
    }
  }

  /** What sprintf writes into content_length for a length: its digits and the NUL. */
  function ContentLengthBytes(n: int): nat {
    |Decimal(n)| + 1
  }

  /**
   * As written, content_length holds 8 bytes: the length of a file of
   * 10000000 bytes or more (below 2^31) is written with 9 or more.
   */
  lemma ContentLengthOverruns(size: nat)
    requires 10000000 <= size < 0x8000_0000
    ensures Int32(size) == size && ContentLengthBytes(Int32(size)) > 8
  {
    assert Pow10(7) == 10000000;
    DecimalLong(size, 7);
  }

  /** Any int the record's length can hold is written with at most 12 bytes: sign, ten digits and the NUL. */
  lemma ContentLengthFitsTwelve(n: int)
    requires -0x8000_0000 <= n < 0x8000_0000
    ensures ContentLengthBytes(n) <= 12
  {
    assert Pow10(10) == 10000000000;
    if n >= 0 {
      DecimalShort(n, 10);
    } else {
      DecimalShort(-n, 10);
    }
  }
}
