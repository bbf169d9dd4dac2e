/**
 * The HTTP codec of src/http.c with the tables of src/http.h: the request
 * parser, the Connection-token scanner, the header lookup, the response-field
 * setter and the header serialiser.
 *
 * The request is the C string held by the receive buffer.  The parser and
 * the lookup walk it with find_delimiter; where the source would go on
 * reading beyond the terminating NUL (a line left without CRLF, a key longer
 * than the rest of the text) the specification functions report that as an
 * outcome of its own, and the methods that implement them require that it
 * does not arise.
 */
module Http {
  import opened CStr
  import opened Utils

  // ---------------------------------------------------------------------------
  // Enumerations and tables of src/http.h

  datatype Method = MethodUnknown | Get | Post | Head
  datatype Version = VersionUnknown | Http10 | Http11

  /** The enum values of http_method and http_version. */
  function MethodCode(m: Method): int {
    match m
    case MethodUnknown => 0
    case Get => 1
    case Post => 2
    case Head => 3
  }

  function VersionCode(v: Version): int {
    match v
    case VersionUnknown => 0
    case Http10 => 1
    case Http11 => 2
  }

  /** http_method_getstr. */
  function MethodName(m: Method): string {
    match m
    case Get => "GET"
    case Head => "HEAD"
    case Post => "POST"
    case MethodUnknown => "UNKNOWN"
  }

  /** http_version_getstr. */
  function VersionName(v: Version): string {
    match v
    case Http10 => "HTTP/1.0"
    case Http11 => "HTTP/1.1"
    case VersionUnknown => "UNKNOWN"
  }

  /** The header keys, in the order of the http_field_key_index enum. */
  datatype FieldKey = Hostname | Accept | Referer | Connection | ContentType | ContentLength | Location

  function KeyCode(k: FieldKey): nat {
    match k
    case Hostname => 0
    case Accept => 1
    case Referer => 2
    case Connection => 3
    case ContentType => 4
    case ContentLength => 5
    case Location => 6
  }

  /** One row of http_field_keys: the key, its text and how many characters a lookup compares. */
  datatype FieldKeyEntry = FieldKeyEntry(keyIndex: FieldKey, key: string, shortKeyLength: nat)

  /** http_field_keys without its sentinel: the slot order of a response and the order of serialisation. */
  const FieldKeys: seq<FieldKeyEntry> := [
    FieldKeyEntry(Hostname, "Host", 1),
    FieldKeyEntry(Accept, "Accept", 1),
    FieldKeyEntry(Referer, "Referer", 1),
    FieldKeyEntry(ContentType, "Content-type", 9),
    FieldKeyEntry(ContentLength, "Content-length", 9),
    FieldKeyEntry(Connection, "Connection", 4),
    FieldKeyEntry(Location, "Location", 1)
  ]

  /** HTTP_HEADER_FIELDS: the number of table rows counting the sentinel, the size of a response's field array. */
  const HeaderFields: nat := |FieldKeys| + 1

  /** The connection bits of http_connection. */
  const KeepAliveBit: int := 1
  const UpgradeBit: int := 4

  /** A reason phrase for a status code. */
  datatype Status = Status(code: int, msg: string)

  /** http_statuses without its sentinel. */
  const Statuses: seq<Status> := [
    Status(200, "OK"),
    Status(204, "No Content"),
    Status(307, "Temporary Redirect"),
    Status(400, "Bad Request"),
    Status(501, "Method Not Implemented")
  ]

  /** err_http_status: what a code missing from the table is written as. */
  const ErrStatus: Status := Status(500, "Internal Server Error")

  /** The table slot of each key: Connection, enum value 3, lives in slot 5. */
  lemma TableLayout()
    ensures |FieldKeys| == 7 && HeaderFields == 8
    ensures forall i :: 0 <= i < |FieldKeys| ==> |FieldKeys[i].key| <= 16 && FieldKeys[i].shortKeyLength <= |FieldKeys[i].key|
    ensures KeyCode(Connection) == 3 && FieldKeys[5].keyIndex == Connection
  {
  }

  // ---------------------------------------------------------------------------
  // Lookups

  function StatusFrom(code: int, i: nat): (r: Status)
    requires i <= |Statuses|
    ensures r == ErrStatus || r.code == code
    ensures r == ErrStatus <==> forall j :: i <= j < |Statuses| ==> Statuses[j].code != code
    ensures r != ErrStatus ==> exists j :: i <= j < |Statuses| && r == Statuses[j]
    decreases |Statuses| - i
  {
    if i == |Statuses| then ErrStatus
    else if Statuses[i].code == code then Statuses[i]
    else StatusFrom(code, i + 1)
  }

  /**
   * http_header_get_status: the table entry for a code, or 500 Internal
   * Server Error for a code the table does not hold.
   */
  function GetStatus(code: int): (r: Status)
    ensures r != ErrStatus <==> code in {200, 204, 307, 400, 501}
    ensures r != ErrStatus ==> r in Statuses && r.code == code
  {
    StatusFrom(code, 0)
  }

  /**
   * http_header_field_getindex: the slot of a key, the row of http_field_keys
   * that names it.
   */
  function FieldGetIndex(k: FieldKey): (r: nat)
    ensures r < |FieldKeys| && FieldKeys[r].keyIndex == k
  {
    match k
    case Hostname => 0
    case Accept => 1
    case Referer => 2
    case ContentType => 3
    case ContentLength => 4
    case Connection => 5
    case Location => 6
  }

  /** Slots and keys correspond one to one. */
  lemma FieldIndexBijective()
    ensures forall i :: 0 <= i < |FieldKeys| ==> FieldGetIndex(FieldKeys[i].keyIndex) == i
    ensures forall k, k' :: FieldGetIndex(k) == FieldGetIndex(k') ==> k == k'
  {
  }

  /** The textual key of a field. */
  function KeyName(k: FieldKey): string {
    FieldKeys[FieldGetIndex(k)].key
  }

  // ---------------------------------------------------------------------------
  // The response header and its fields

  /** A response header: version, status code and one optional value per slot. */
  datatype Response = Response(version: Version, status: int, fields: seq<Option<string>>)
  {
    predicate Valid() {
      |fields| == HeaderFields
    }
  }

  /** Outcome of http_header_setvalue: its return code and the fields afterwards. */
  datatype FieldUpdate = FieldUpdate(rc: int, fields: seq<Option<string>>)

  /**
   * http_header_setvalue on the field array: a missing value, or a key whose
   * slot is 0 (Host), is refused with -1 and nothing changes; otherwise the
   * key's slot takes the value and every other slot keeps its own.
   */
  function SetField(fields: seq<Option<string>>, k: FieldKey, value: Option<string>): (r: FieldUpdate)
    requires |fields| == HeaderFields
    ensures |r.fields| == HeaderFields
    ensures (value.None? || k == Hostname) <==> r.rc == -1
    ensures r.rc == -1 ==> r.fields == fields
    ensures r.rc == 0 ==> r.fields[FieldGetIndex(k)] == value
    ensures r.rc == 0 ==> forall j :: 0 <= j < HeaderFields && j != FieldGetIndex(k) ==> r.fields[j] == fields[j]
  {
    if value.None? then FieldUpdate(-1, fields)
    else
      var index := FieldGetIndex(k);
      if index != 0 then FieldUpdate(0, fields[index := value]) else FieldUpdate(-1, fields)
  }

  /** http_header_setvalue on the field array of a response, in place. */
  method SetValue(fields: array<Option<string>>, k: FieldKey, value: Option<string>) returns (rc: int)
    requires fields.Length == HeaderFields
    modifies fields
    ensures rc == SetField(old(fields[..]), k, value).rc
    ensures fields[..] == SetField(old(fields[..]), k, value).fields
  {
    if value.None? {
      return -1;
    }
    var index := FieldGetIndex(k);
    if index != 0 {
      fields[index] := value;
      return 0;
    }
    return -1;
  }

  /** Setting a field twice keeps the later value; the other slots are untouched. */
  lemma SetFieldLastWins(fields: seq<Option<string>>, k: FieldKey, v1: string, v2: string)
    requires |fields| == HeaderFields && k != Hostname
    ensures SetField(SetField(fields, k, Some(v1)).fields, k, Some(v2)) == SetField(fields, k, Some(v2))
  {
  }

  // ---------------------------------------------------------------------------
  // http_header_fill

  /** The status line: version, space, code, space, reason, CRLF. */
  function StatusLine(resp: Response): string {
    var st := GetStatus(resp.status);
    VersionName(resp.version) + " " + Decimal(st.code) + " " + st.msg + "\r\n"
  }

  /** "Key: value" CRLF for the field in slot i, if it is set. */
  function FieldLine(fields: seq<Option<string>>, i: nat): string
    requires i < |FieldKeys| && i < |fields|
  {
    if fields[i].Some? then FieldKeys[i].key + ": " + fields[i].value + "\r\n" else ""
  }

  /** The lines of the set fields among slots 0 .. n-1, in table order. */
  function FieldLines(fields: seq<Option<string>>, n: nat): string
    requires n <= |FieldKeys| && n <= |fields|
  {
    if n == 0 then "" else FieldLines(fields, n - 1) + FieldLine(fields, n - 1)
  }

  /**
   * The whole serialised header: status line, field lines, blank line; it
   * starts with the status line and ends with an empty line.
   */
  function HeaderText(resp: Response): (r: string)
    requires resp.Valid()
    ensures IsPrefix(StatusLine(resp), r)
    ensures |r| >= 2 && r[|r| - 2..] == "\r\n"
  {
    var fields := FieldLines(resp.fields, |FieldKeys|) + "\r\n";
    assert (StatusLine(resp) + fields)[|StatusLine(resp) + fields| - 2..] == fields[|fields| - 2..];
    StatusLine(resp) + fields
  }

  /** Every set field appears in the header as its own line, "Key: value" and CRLF, after the lines of the slots before it. */
  lemma HeaderTextHoldsField(resp: Response, i: nat)
    requires resp.Valid() && i < |FieldKeys| && resp.fields[i].Some?
    ensures OccursAt(HeaderText(resp), FieldKeys[i].key + ": " + resp.fields[i].value + "\r\n",
                     |StatusLine(resp)| + |FieldLines(resp.fields, i)|)
  {
    var f := resp.fields;
    var line := FieldLine(f, i);
    var status := StatusLine(resp);
    FieldLinesPrefix(f, i + 1, |FieldKeys|);
    PrefixInside(status, FieldLines(f, i + 1), FieldLines(f, |FieldKeys|), "\r\n");
    assert status + FieldLines(f, i + 1) == (status + FieldLines(f, i)) + line;
    OccursAfterPrefix(status + FieldLines(f, i), line, HeaderText(resp));
  }

  /**
   * The header of an HTTP/1.0 response with a status from the table and
   * "Connection: close" set starts with that status and its own reason
   * phrase, and holds the Connection line.
   */
  lemma ClosedResponseLines(resp: Response)
    requires resp.Valid() && resp.version == Http10 && resp.status in {200, 204, 307, 400, 501}
    requires resp.fields[FieldGetIndex(Connection)] == Some("close")
    ensures GetStatus(resp.status).code == resp.status
    ensures IsPrefix("HTTP/1.0" + " " + Decimal(resp.status) + " " + GetStatus(resp.status).msg + "\r\n", HeaderText(resp))
    ensures Contains(HeaderText(resp), "Connection: close\r\n")
  {
    assert GetStatus(resp.status).code == resp.status;
    HeaderSaysClose(resp);
  }

  /** A response with "Connection: close" set holds that line in its header. */
  lemma HeaderSaysClose(resp: Response)
    requires resp.Valid() && resp.fields[FieldGetIndex(Connection)] == Some("close")
    ensures Contains(HeaderText(resp), "Connection: close\r\n")
  {
    assert FieldGetIndex(Connection) == 5;
    HeaderTextHoldsField(resp, 5);
    var at := |StatusLine(resp)| + |FieldLines(resp.fields, 5)|;
    CloseLineText();
  }

  /** The Connection line of a closing response, as the serialiser spells it. */
  lemma CloseLineText()
    ensures FieldKeys[5].key + ": " + "close" + "\r\n" == "Connection: close\r\n"
  {
  }

  /** A response with a Content-length set holds "Content-length: " and the value as a line of its header. */
  lemma HeaderSaysLength(resp: Response, v: string)
    requires resp.Valid() && resp.fields[FieldGetIndex(ContentLength)] == Some(v)
    ensures Contains(HeaderText(resp), "Content-length: " + v + "\r\n")
  {
    assert FieldGetIndex(ContentLength) == 4;
    HeaderTextHoldsField(resp, 4);
    var at := |StatusLine(resp)| + |FieldLines(resp.fields, 4)|;
    LengthLineText(v);
    assert OccursAt(HeaderText(resp), "Content-length: " + v + "\r\n", at);
  }

  /** A response with a Content-type set holds "Content-type: " and the type as a line of its header. */
  lemma HeaderSaysType(resp: Response, t: string)
    requires resp.Valid() && resp.fields[FieldGetIndex(ContentType)] == Some(t)
    ensures Contains(HeaderText(resp), "Content-type: " + t + "\r\n")
  {
    assert FieldGetIndex(ContentType) == 3;
    HeaderTextHoldsField(resp, 3);
    var at := |StatusLine(resp)| + |FieldLines(resp.fields, 3)|;
    TypeLineText(t);
    assert OccursAt(HeaderText(resp), "Content-type: " + t + "\r\n", at);
  }

  /** The Content-type line of a value, as the serialiser spells it. */
  lemma TypeLineText(t: string)
    ensures FieldKeys[3].key + ": " + t + "\r\n" == "Content-type: " + t + "\r\n"
  {
  }

  /** The status line of a 200 response on HTTP/1.0. */
  lemma OkStatusLine(resp: Response)
    requires resp.status == 200 && resp.version == Http10
    ensures StatusLine(resp) == "HTTP/1.0 " + Decimal(200) + " OK\r\n"
  {
    assert GetStatus(200) == Statuses[0];
  }

  /** The Content-length line of a value, as the serialiser spells it. */
  lemma LengthLineText(v: string)
    ensures FieldKeys[4].key + ": " + v + "\r\n" == "Content-length: " + v + "\r\n"
  {
  }

  /** The field lines are empty or end with CRLF. */
  lemma {:induction false} FieldLinesEndLine(fields: seq<Option<string>>, n: nat)
    requires n <= |FieldKeys| && n <= |fields|
    ensures var t := FieldLines(fields, n); t == "" || (|t| >= 2 && t[|t| - 2..] == "\r\n")
  {
    if n > 0 {
      FieldLinesEndLine(fields, n - 1);
      var line := FieldLine(fields, n - 1);
      if line != "" {
        var t := FieldLines(fields, n);
        assert t[|t| - 2..] == line[|line| - 2..];
      }
    }
  }

  /** With field values of at most m characters, each line is at most m + 20 long. */
  lemma {:induction false} FieldLinesBound(fields: seq<Option<string>>, n: nat, m: nat)
    requires n <= |FieldKeys| && n <= |fields|
    requires forall i :: 0 <= i < n && fields[i].Some? ==> |fields[i].value| <= m
    ensures |FieldLines(fields, n)| <= n * (m + 20)
  {
    if n > 0 {
      FieldLinesBound(fields, n - 1, m);
      TableLayout();
      assert |FieldKeys[n - 1].key| <= 16;
      assert |FieldLine(fields, n - 1)| <= m + 20;
      assert (n - 1) * (m + 20) + (m + 20) == n * (m + 20);
    }
  }

  /**
   * A header whose field values are at most m characters long fits in
   * 39 + 7 * (m + 20) characters: a status line of at most 37, the field
   * lines and the empty line.
   */
  lemma HeaderTextBound(resp: Response, m: nat)
    requires resp.Valid()
    requires forall i :: 0 <= i < HeaderFields && resp.fields[i].Some? ==> |resp.fields[i].value| <= m
    ensures |HeaderText(resp)| <= 39 + |FieldKeys| * (m + 20)
  {
    var st := GetStatus(resp.status);
    assert forall k :: 0 <= k < |Statuses| ==> 0 <= Statuses[k].code < 1000 && |Statuses[k].msg| <= 22;
    DecimalBelowThousand(st.code);
    FieldLinesBound(resp.fields, |FieldKeys|, m);
  }

  /** The header ends with the CRLF of its last line and the empty line after it. */
  lemma HeaderTextEndsEmptyLine(resp: Response)
    requires resp.Valid()
    ensures var t := HeaderText(resp); |t| >= 4 && t[|t| - 4..] == "\r\n\r\n"
  {
    StatusLineEndsLine(resp);
    FieldLinesEndLine(resp.fields, |FieldKeys|);
    LinesThenEmptyLine(StatusLine(resp), FieldLines(resp.fields, |FieldKeys|));
  }

  /** The status line ends with CRLF. */
  lemma StatusLineEndsLine(resp: Response)
    ensures var t := StatusLine(resp); |t| >= 2 && t[|t| - 2..] == "\r\n"
  {
    var st := GetStatus(resp.status);
    var front := VersionName(resp.version) + " " + Decimal(st.code) + " " + st.msg;
    var t := front + "\r\n";
    assert t[|t| - 2..] == "\r\n";
  }

  /** Lines that end with CRLF, then possibly more such lines, then CRLF: the text ends with an empty line. */
  lemma LinesThenEmptyLine(first: string, rest: string)
    requires |first| >= 2 && first[|first| - 2..] == "\r\n"
    requires rest == "" || (|rest| >= 2 && rest[|rest| - 2..] == "\r\n")
    ensures var t := first + rest + "\r\n"; |t| >= 4 && t[|t| - 4..] == "\r\n\r\n"
  {
    var u := first + rest;
    if rest == "" {
      assert u == first;
    } else {
      assert u[|u| - 2..] == rest[|rest| - 2..];
    }
    var t := u + "\r\n";
    assert t[|t| - 4..] == u[|u| - 2..] + "\r\n";
  }

  /** A code missing from the table is written as 500 Internal Server Error. */
  lemma UnknownStatusLine(resp: Response)
    requires resp.status !in {200, 204, 307, 400, 501}
    ensures StatusLine(resp) == VersionName(resp.version) + " " + "500" + " " + "Internal Server Error" + "\r\n"
  {
    assert GetStatus(resp.status) == ErrStatus;
    StatusCodeDigits();
  }

  /** The lines of slots m .. n-1 follow those of slots 0 .. m-1. */
  lemma {:induction false} FieldLinesPrefix(fields: seq<Option<string>>, m: nat, n: nat)
    requires m <= n <= |FieldKeys| && n <= |fields|
    ensures IsPrefix(FieldLines(fields, m), FieldLines(fields, n))
    decreases n - m
  {
    if m < n {
      FieldLinesPrefix(fields, m, n - 1);
      assert FieldLines(fields, n) == FieldLines(fields, n - 1) + FieldLine(fields, n - 1);
    }
  }

  /**
   * http_header_fill as written: it writes the whole header and its NUL
   * whatever buflen says.  This is the number of bytes it stores.
   */
  function FillAsWrittenStores(resp: Response, buflen: int): (n: nat)
    requires resp.Valid()
    ensures n == |HeaderText(resp)| + 1
  {
    |HeaderText(resp)| + 1
  }

  /**
   * The overrun: a response whose Location value is 8173 characters or
   * longer needs more than the 8192-byte response buffer the caller passes
   * with buflen 8191.
   */
  lemma FillOverrunsOnLongLocation(resp: Response)
    requires resp.Valid() && resp.fields[FieldGetIndex(Location)].Some?
    requires |resp.fields[FieldGetIndex(Location)].value| >= 8173
    ensures FillAsWrittenStores(resp, 8191) > 8192
  {
    var i := FieldGetIndex(Location);
    FieldLinesHold(resp.fields, i, |FieldKeys|);
    assert |FieldLine(resp.fields, i)| >= 12 + |resp.fields[i].value| by {
      assert FieldKeys[i].key == "Location";
    }
    assert |StatusLine(resp)| >= 5;
  }

  /** The field lines of slots 0 .. n-1 are at least as long as the line of any one of them. */
  lemma {:induction false} FieldLinesHold(fields: seq<Option<string>>, i: nat, n: nat)
    requires i < n <= |FieldKeys| && n <= |fields|
    ensures |FieldLines(fields, n)| >= |FieldLine(fields, i)|
  {
    if n > i + 1 {
      FieldLinesHold(fields, i, n - 1);
    }
  }

  /** The status line of a redirect: "HTTP/1.0 307 Temporary Redirect" and CRLF. */
  lemma RedirectStatusLine(resp: Response)
    requires resp.version == Http10 && resp.status == 307
    ensures StatusLine(resp) == "HTTP/1.0" + " " + "307" + " " + "Temporary Redirect" + "\r\n"
  {
    assert GetStatus(307) == Status(307, "Temporary Redirect");
    StatusCodeDigits();
  }

  /**
   * http_header_fill, with the bound the caller evidently relies on: when
   * the header fits in buflen characters (the buffer holds one more for the
   * NUL), it is written with its NUL and its length returned; otherwise -1
   * and the buffer is untouched.
   */
  method Fill(resp: Response, buf: array<char>, buflen: int) returns (n: int)
    requires resp.Valid() && 0 <= buflen < buf.Length
    modifies buf
    ensures n == -1 || n == |HeaderText(resp)|
    ensures n == -1 <==> |HeaderText(resp)| > buflen
    ensures n >= 0 ==> buf[..n] == HeaderText(resp) && buf[n] == '\0'
    ensures n < 0 ==> buf[..] == old(buf[..])
  {
    var lines := WriteFieldLines(resp.fields);
    var header := StatusLine(resp) + lines + "\r\n";
    if |header| > buflen {
      return -1;
    }
    CopyInto(buf, 0, header);
    buf[|header|] := '\0';
    assert buf[..|header|] == header;
    return |header|;
  }

  /** The loop of http_header_fill over the field table: the lines of the set fields, in table order. */
  method WriteFieldLines(fields: seq<Option<string>>) returns (lines: string)
    requires |fields| == HeaderFields
    ensures lines == FieldLines(fields, |FieldKeys|)
  {
    lines := "";
    var index := 0;
    while index < |FieldKeys|
      invariant 0 <= index <= |FieldKeys|
      invariant lines == FieldLines(fields, index)
    {
      assert FieldLines(fields, index + 1) == lines + FieldLine(fields, index);
      lines := lines + FieldLine(fields, index);
      index := index + 1;
    }
  }

  // ---------------------------------------------------------------------------
  // http_header_parse_connection

  const CRLF: string := "\r\n"

  /** The bits of http_connection a Connection header sets. */
  datatype ConnFlags = ConnFlags(keepAlive: bool, upgrade: bool)
  {
    function Bits(): (r: int)
      ensures (r / KeepAliveBit) % 2 == (if keepAlive then 1 else 0)
      ensures (r / UpgradeBit) % 2 == (if upgrade then 1 else 0)
    {
      (if keepAlive then KeepAliveBit else 0) + (if upgrade then UpgradeBit else 0)
    }
  }

  const NoConnFlags: ConnFlags := ConnFlags(false, false)

  predicate IsK(c: char) { c == 'k' || c == 'K' }
  predicate IsC(c: char) { c == 'c' || c == 'C' }
  predicate IsU(c: char) { c == 'u' || c == 'U' }

  /**
   * http_header_parse_connection over buf[i..end], corrected: "keep-alive"
   * sets the keep-alive bit, "close" clears it, "upgra" sets the upgrade bit
   * and skips seven characters, spaces and commas are skipped, and any other
   * character, including a k, c or u that starts none of those tokens, ends
   * the scan.  The comparisons may look beyond `end`, as strncasecmp does.
   */
  function ConnectionScan(buf: string, i: nat, end: nat, f: ConnFlags): (r: ConnFlags)
    requires end <= |buf|
    ensures r.keepAlive && !f.keepAlive ==>
      exists j :: i <= j < end && IsK(buf[j]) && NCaseEq(buf[j..], "keep-alive", 10)
    ensures r.upgrade && !f.upgrade ==>
      exists j :: i <= j < end && IsU(buf[j]) && NCaseEq(buf[j..], "upgrade", 5)
    decreases end - i
  {
    if i >= end then f
    else if IsK(buf[i]) && NCaseEq(buf[i..], "keep-alive", 10) then
      ConnectionScan(buf, i + 10, end, f.(keepAlive := true))
    else if IsC(buf[i]) && NCaseEq(buf[i..], "close", 5) then
      ConnectionScan(buf, i + 5, end, f.(keepAlive := false))
    else if IsU(buf[i]) && NCaseEq(buf[i..], "upgrade", 5) then
      ConnectionScan(buf, i + 7, end, f.(upgrade := true))
    else if buf[i] == ' ' || buf[i] == ',' then
      ConnectionScan(buf, i + 1, end, f)
    else f
  }

  /**
   * http_header_parse_connection as written: a k, c or u that starts none of
   * its tokens leaves `str` where it is, and the loop never ends
   * (None).
   */
  function ConnectionScanAsWritten(buf: string, i: nat, end: nat, f: ConnFlags): (r: Option<ConnFlags>)
    requires end <= |buf|
    ensures r.None? ==> exists j :: i <= j < end && (IsK(buf[j]) || IsC(buf[j]) || IsU(buf[j]))
    ensures r.Some? && i < end && buf[i] != ' ' && buf[i] != ',' && !IsK(buf[i]) && !IsC(buf[i]) && !IsU(buf[i]) ==>
      r.value == f
    decreases end - i
  {
    if i >= end then Some(f)
    else if IsK(buf[i]) then
      if NCaseEq(buf[i..], "keep-alive", 10) then ConnectionScanAsWritten(buf, i + 10, end, f.(keepAlive := true)) else None
    else if IsC(buf[i]) then
      if NCaseEq(buf[i..], "close", 5) then ConnectionScanAsWritten(buf, i + 5, end, f.(keepAlive := false)) else None
    else if IsU(buf[i]) then
      if NCaseEq(buf[i..], "upgrade", 5) then ConnectionScanAsWritten(buf, i + 7, end, f.(upgrade := true)) else None
    else if buf[i] == ' ' || buf[i] == ',' then ConnectionScanAsWritten(buf, i + 1, end, f)
    else Some(f)
  }

  /** Wherever the scan as written terminates, the corrected scan reports the same flags. */
  lemma {:induction false} ConnectionScanAgrees(buf: string, i: nat, end: nat, f: ConnFlags)
    requires end <= |buf| && ConnectionScanAsWritten(buf, i, end, f).Some?
    ensures ConnectionScan(buf, i, end, f) == ConnectionScanAsWritten(buf, i, end, f).value
    decreases end - i
  {
    if i < end {
      if IsK(buf[i]) {
        ConnectionScanAgrees(buf, i + 10, end, f.(keepAlive := true));
      } else if IsC(buf[i]) {
        ConnectionScanAgrees(buf, i + 5, end, f.(keepAlive := false));
      } else if IsU(buf[i]) {
        ConnectionScanAgrees(buf, i + 7, end, f.(upgrade := true));
      } else if buf[i] == ' ' || buf[i] == ',' {
        ConnectionScanAgrees(buf, i + 1, end, f);
      }
    }
  }

  /**
   * The hang: "Connection: cookie" gives the scan a token that starts with c
   * but is not "close"; as written it never returns, corrected it stops with
   * no bit set.
   */
  lemma ConnectionScanHangsOnCookie()
    ensures ConnectionScanAsWritten("cookie", 0, 6, NoConnFlags).None?
    ensures ConnectionScan("cookie", 0, 6, NoConnFlags) == NoConnFlags
  {
    var t := "cookie"[0..][..5];
    assert t == "cooki" && t[1] == 'o' && "close"[..5][1] == 'l';
    assert ToLower(t[1]) != ToLower("close"[..5][1]);
  }

  /** Once an upgrade token has been seen, the rest of the scan keeps the upgrade bit. */
  lemma {:induction false} ConnectionScanKeepsUpgrade(buf: string, i: nat, end: nat, f: ConnFlags)
    requires end <= |buf| && f.upgrade
    ensures ConnectionScan(buf, i, end, f).upgrade
    decreases end - i
  {
    if i < end {
      if IsK(buf[i]) && NCaseEq(buf[i..], "keep-alive", 10) {
        ConnectionScanKeepsUpgrade(buf, i + 10, end, f.(keepAlive := true));
      } else if IsC(buf[i]) && NCaseEq(buf[i..], "close", 5) {
        ConnectionScanKeepsUpgrade(buf, i + 5, end, f.(keepAlive := false));
      } else if IsU(buf[i]) && NCaseEq(buf[i..], "upgrade", 5) {
        ConnectionScanKeepsUpgrade(buf, i + 7, end, f.(upgrade := true));
      } else if buf[i] == ' ' || buf[i] == ',' {
        ConnectionScanKeepsUpgrade(buf, i + 1, end, f);
      }
    }
  }

  /** "keep-alive, Upgrade" sets both bits. */
  lemma ConnectionScanKeepAliveUpgrade()
    ensures ConnectionScan("keep-alive, Upgrade", 0, 19, NoConnFlags).Bits() == 5
  {
    var a := "keep-alive, Upgrade";
    assert a[0] == 'k' && a[10] == ',' && a[11] == ' ' && a[12] == 'U';
    assert a[0..][..10] == "keep-alive";
    assert NCaseEq(a[12..], "upgrade", 5) by {
      assert a[12..][..5] == "Upgra" && "upgrade"[..5] == "upgra";
    }
    assert ConnectionScan(a, 12, 19, ConnFlags(true, false)) == ConnFlags(true, true);
    assert ConnectionScan(a, 11, 19, ConnFlags(true, false)) == ConnectionScan(a, 12, 19, ConnFlags(true, false));
    assert ConnectionScan(a, 10, 19, ConnFlags(true, false)) == ConnectionScan(a, 11, 19, ConnFlags(true, false));
    assert ConnectionScan(a, 0, 19, NoConnFlags) == ConnectionScan(a, 10, 19, ConnFlags(true, false));
  }

  /** "keep-alive, close": the later close clears keep-alive again. */
  lemma ConnectionScanKeepAliveClose()
    ensures ConnectionScan("keep-alive, close", 0, 17, NoConnFlags).Bits() == 0
  {
    var b := "keep-alive, close";
    assert b[0] == 'k' && b[10] == ',' && b[11] == ' ' && b[12] == 'c';
    assert b[0..][..10] == "keep-alive";
    assert b[12..][..5] == "close";
    assert ConnectionScan(b, 12, 17, ConnFlags(true, false)) == ConnFlags(false, false);
    assert ConnectionScan(b, 11, 17, ConnFlags(true, false)) == ConnectionScan(b, 12, 17, ConnFlags(true, false));
    assert ConnectionScan(b, 10, 17, ConnFlags(true, false)) == ConnectionScan(b, 11, 17, ConnFlags(true, false));
    assert ConnectionScan(b, 0, 17, NoConnFlags) == ConnectionScan(b, 10, 17, ConnFlags(true, false));
  }

  /**
   * http_header_parse_connection, corrected: scans the len characters from
   * start and returns the connection bits.
   */
  method ParseConnection(buf: string, start: nat, len: nat) returns (connection: ConnFlags)
    requires start + len <= |buf|
    ensures connection == ConnectionScan(buf, start, start + len, NoConnFlags)
  {
    var end := start + len;
    var i := start;
    var f := NoConnFlags;
    while i < end
      invariant ConnectionScan(buf, i, end, f) == ConnectionScan(buf, start, end, NoConnFlags)
      decreases end - i
    {
      var c := buf[i];
      if (c == 'k' || c == 'K') && NCaseEq(buf[i..], "keep-alive", 10) {
        assert ConnectionScan(buf, i, end, f) == ConnectionScan(buf, i + 10, end, f.(keepAlive := true));
        f := f.(keepAlive := true);
        i := i + 10;
      } else if (c == 'c' || c == 'C') && NCaseEq(buf[i..], "close", 5) {
        assert ConnectionScan(buf, i, end, f) == ConnectionScan(buf, i + 5, end, f.(keepAlive := false));
        f := f.(keepAlive := false);
        i := i + 5;
      } else if (c == 'u' || c == 'U') && NCaseEq(buf[i..], "upgrade", 5) {
        assert ConnectionScan(buf, i, end, f) == ConnectionScan(buf, i + 7, end, f.(upgrade := true));
        f := f.(upgrade := true);
        i := i + 7;
      } else if c == ' ' || c == ',' {
        assert ConnectionScan(buf, i, end, f) == ConnectionScan(buf, i + 1, end, f);
        i := i + 1;
      } else {
        break;
      }
    }
    connection := f;
  }

  /**
   * http_header_parse_connection as written, over the len characters from
   * start.  A k, c or u that starts none of its tokens leaves `str`
   * where it is, so the method is callable only where the scan returns.
   */
  method ParseConnectionAsWritten(buf: string, start: nat, len: nat) returns (connection: ConnFlags)
    requires start + len <= |buf| && ConnectionScanAsWritten(buf, start, start + len, NoConnFlags).Some?
    ensures connection == ConnectionScanAsWritten(buf, start, start + len, NoConnFlags).value
  {
    var end := start + len;
    var i := start;
    var f := NoConnFlags;
    while i < end
      invariant ConnectionScanAsWritten(buf, i, end, f) == ConnectionScanAsWritten(buf, start, end, NoConnFlags)
      decreases end - i
    {
      var c := buf[i];
      if c == 'k' || c == 'K' {
        if !NCaseEq(buf[i..], "keep-alive", 10) {
          assert false;
        }
        f := f.(keepAlive := true);
        i := i + 10;
      } else if c == 'c' || c == 'C' {
        if !NCaseEq(buf[i..], "close", 5) {
          assert false;
        }
        f := f.(keepAlive := false);
        i := i + 5;
      } else if c == 'u' || c == 'U' {
        if !NCaseEq(buf[i..], "upgrade", 5) {
          assert false;
        }
        f := f.(upgrade := true);
        i := i + 7;
      } else if c == ' ' || c == ',' {
        i := i + 1;
      } else {
        i := end;
      }
    }
    connection := f;
  }

  // ---------------------------------------------------------------------------
  // http_header_parse

  /** What http_header_parse stores in the request header on success. */
  datatype Request = Request(
    requestMethod: Method,
    version: Version,
    /** The scanned Connection line; None where the request has none and the field is left unset. */
    connection: Option<int>,
    filename: string,
    query: string,
    /** header_start: the position just past the first CRLF. */
    headerStart: nat)

  /**
   * The outcome of http_header_parse: an error code (400 or 501), a parsed
   * request, or Undefined where the source would read past the terminating
   * NUL, hand the Connection scanner a length that wraps around, or
   * enter a Connection scan that never returns.
   */
  datatype ParseResult = ParseFailed(error: int) | Parsed(req: Request) | ParseUndefined

  /** The method a token of n characters at the start of buf selects. */
  function MethodOfToken(buf: string, n: nat): Method {
    if NCaseEq(buf, "GET", n) then Get
    else if NCaseEq(buf, "HEAD", n) then Head
    else if NCaseEq(buf, "POST", n) then Post
    else MethodUnknown
  }

  /**
   * The method token is compared over its own length only: a token selects
   * GET exactly when it is a non-empty prefix of "GET" up to case, HEAD when
   * it is such a prefix of "HEAD" and not of "GET", and so on.
   */
  lemma MethodOfTokenIsPrefix(buf: string, n: nat)
    requires 0 < n < |buf|
    ensures MethodOfToken(buf, n) == Get <==> n <= 3 && CaseEq(buf[..n], "GET"[..n])
    ensures MethodOfToken(buf, n) == Head <==>
      !(n <= 3 && CaseEq(buf[..n], "GET"[..n])) && n <= 4 && CaseEq(buf[..n], "HEAD"[..n])
    ensures MethodOfToken(buf, n) == Post <==>
      !(n <= 3 && CaseEq(buf[..n], "GET"[..n])) && !(n <= 4 && CaseEq(buf[..n], "HEAD"[..n]))
      && n <= 4 && CaseEq(buf[..n], "POST"[..n])
  {
  }

  /** The first position at or after i that does not hold a space. */
  function SkipSpaces(buf: string, i: nat): (q: nat)
    requires i <= |buf|
    ensures i <= q <= |buf| && (q < |buf| ==> buf[q] != ' ')
    ensures forall k :: i <= k < q ==> buf[k] == ' '
    decreases |buf| - i
  {
    if i < |buf| && buf[i] == ' ' then SkipSpaces(buf, i + 1) else i
  }

  /** The characters at which the file name is cut off from the query. */
  predicate IsQueryMark(c: char) {
    c == '?' || c == '#' || c == ';' || c == '=' || c == ' '
  }

  /** The position of the first query mark in raw, or |raw| when there is none. */
  function QueryMark(raw: string): (k: nat)
    ensures k <= |raw| && (k < |raw| ==> IsQueryMark(raw[k]))
    ensures forall j :: 0 <= j < k ==> !IsQueryMark(raw[j])
  {
    if raw == [] then 0
    else if IsQueryMark(raw[0]) then 0
    else 1 + QueryMark(raw[1..])
  }

  /** The file name: the path token up to its first query mark. */
  function PathName(raw: string): string {
    raw[..QueryMark(raw)]
  }

  /** The query: what follows the first query mark, or empty when there is none. */
  function PathQuery(raw: string): string {
    var k := QueryMark(raw);
    if k < |raw| then raw[k + 1..] else ""
  }

  /** Cutting the path token loses only the query mark itself. */
  lemma PathSplits(raw: string)
    ensures var k := QueryMark(raw);
      if k < |raw| then raw == PathName(raw) + [raw[k]] + PathQuery(raw)
      else raw == PathName(raw) && PathQuery(raw) == ""
    ensures forall j :: 0 <= j < |PathName(raw)| ==> !IsQueryMark(PathName(raw)[j])
  {
    var k := QueryMark(raw);
    var name := PathName(raw);
    assert name == raw[..k];
    if k < |raw| {
      assert PathQuery(raw) == raw[k + 1..];
      assert raw == raw[..k] + [raw[k]] + raw[k + 1..];
    } else {
      assert raw[..k] == raw;
    }
    assert forall j :: 0 <= j < |name| ==> name[j] == raw[j];
  }

  /** The outcome of the loop over header lines that looks for a Connection line. */
  datatype ConnLineResult = NoConnLine | ConnLine(flags: ConnFlags) | ConnLineUndefined

  /**
   * The Connection loop of http_header_parse, from the line at pos: an
   * empty line ends it; a line whose first four characters are "Conn" up to
   * case and whose eleventh character is ':' is scanned from its twelfth
   * character to its end by the scan as written, and ends it.  A scan that
   * never returns is ConnLineUndefined, like a read past the NUL.
   */
  function ConnectionLine(buf: string, pos: nat): (r: ConnLineResult)
    requires pos <= |buf|
    ensures r.ConnLine? ==> exists p :: pos <= p && p + 10 < |buf| && NCaseEq(buf[p..], "Conn", 4) && buf[p + 10] == ':'
    ensures pos == |buf| ==> r == NoConnLine
    decreases |buf| - pos
  {
    var l := Delim(buf, pos, CRLF);
    if l.length == 0 then NoConnLine
    else if NCaseEq(buf[pos..], "Conn", 4) && pos + 10 > |buf| then ConnLineUndefined
    else if NCaseEq(buf[pos..], "Conn", 4) && pos + 10 < |buf| && buf[pos + 10] == ':' then
      if l.length < 11 then ConnLineUndefined
      else match ConnectionScanAsWritten(buf, pos + 11, pos + l.length, NoConnFlags)
        case None => ConnLineUndefined
        case Some(f) => ConnLine(f)
    else if l.next > |buf| then ConnLineUndefined
    else ConnectionLine(buf, l.next)
  }

  /** The version a well-formed 8-character version token names: its eighth character picks 1.0 or 1.1. */
  function VersionOfToken(c: char): Version {
    if c == '1' then Http11 else if c == '0' then Http10 else VersionUnknown
  }

  /** The outcome of the request-line part of http_header_parse. */
  datatype RequestLineResult =
    | LineFailed(error: int)
    | LineOk(requestMethod: Method, version: Version, path: string, headerStart: nat)
    | LineUndefined

  /**
   * The request line as http_header_parse reads it: the line up to the first
   * CRLF must be 12 characters or longer and start with a non-empty method
   * token; GET and HEAD go on, POST and the rest fail with 501; after spaces
   * the path must start with '/' and runs to the next space; the version
   * token is the rest of the request line and must be 8 characters with '1'
   * in place 5 and '0' or '1' in place 7.
   */
  function RequestLine(buf: string): (r: RequestLineResult)
    requires NoNul(buf)
    ensures r.LineFailed? ==> r.error == 400 || r.error == 501
    ensures r.LineOk? ==> r.headerStart <= |buf| && (r.requestMethod == Get || r.requestMethod == Head)
    ensures r.LineOk? ==> r.version != VersionUnknown && |r.path| > 0 && r.path[0] == '/'
  {
    var line := Delim(buf, 0, CRLF);
    if line.length < 12 then LineFailed(400)
    else
      var m := Delim(buf, 0, " ");
      if m.length == 0 then LineFailed(400)
      else
        var meth := MethodOfToken(buf, m.length);
        if meth != Get && meth != Head then LineFailed(501)
        else if m.next > |buf| then LineUndefined
        else RequestTarget(buf, meth, SkipSpaces(buf, m.next), line.next)
  }

  /**
   * The rest of the request line, from the first character after the spaces
   * that follow the method token: the path and the version token; lineNext
   * is where the request line's CRLF ends.
   */
  function RequestTarget(buf: string, meth: Method, q: nat, lineNext: nat): (r: RequestLineResult)
    requires NoNul(buf) && q <= |buf|
    ensures r.LineFailed? ==> r.error == 400
    ensures r.LineOk? ==> r.headerStart == lineNext <= |buf| && r.requestMethod == meth
    ensures r.LineOk? ==> r.version != VersionUnknown && |r.path| > 0 && r.path[0] == '/'
  {
    if q == |buf| || buf[q] != '/' then LineFailed(400)
    else
      var t := Delim(buf, q, " ");
      DelimFound(buf, q, " ");
      if t.next > |buf| then LineUndefined
      else
        var v := Delim(buf, t.next, CRLF);
        if v.length != 8 || buf[t.next + 5] != '1' || VersionOfToken(buf[t.next + 7]) == VersionUnknown then
          LineFailed(400)
        else if lineNext > |buf| then LineUndefined
        else LineOk(meth, VersionOfToken(buf[t.next + 7]), buf[q..q + t.length], lineNext)
  }

  /**
   * http_header_parse on the C string buf: the request line, its path cut
   * into file name and query, then the search for a Connection line.
   */
  function ParseRequest(buf: string): (r: ParseResult)
    requires NoNul(buf)
    ensures r.ParseFailed? ==> r.error == 400 || r.error == 501
    ensures r.Parsed? ==> r.req.headerStart <= |buf| && |r.req.filename| > 0 && r.req.filename[0] == '/'
    ensures r.Parsed? ==> r.req.requestMethod == Get || r.req.requestMethod == Head
  {
    match RequestLine(buf)
    case LineFailed(e) => ParseFailed(e)
    case LineUndefined => ParseUndefined
    case LineOk(meth, version, raw, start) =>
      var req := Request(meth, version, None, PathName(raw), PathQuery(raw), start);
      match ConnectionLine(buf, start)
      case ConnLineUndefined => ParseUndefined
      case NoConnLine => Parsed(req)
      case ConnLine(f) => Parsed(req.(connection := Some(f.Bits())))
  }

  /** The request-line part of http_header_parse. */
  method ParseRequestLine(buf: string) returns (r: RequestLineResult)
    requires NoNul(buf) && !RequestLine(buf).LineUndefined?
    ensures r == RequestLine(buf)
  {
    var line := FindDelimiter(buf, 0, CRLF);
    if line.length < 12 {
      return LineFailed(400);
    }
    var m := FindDelimiter(buf, 0, " ");
    if m.length == 0 {
      return LineFailed(400);
    }
    var meth: Method;
    if NCaseEq(buf, "GET", m.length) {
      meth := Get;
    } else if NCaseEq(buf, "HEAD", m.length) {
      meth := Head;
    } else {
      return LineFailed(501);
    }
    var q := m.next;
    while q < |buf| && buf[q] == ' '
      invariant m.next <= q <= |buf|
      invariant SkipSpaces(buf, q) == SkipSpaces(buf, m.next)
    {
      q := q + 1;
    }
    r := ParseRequestTarget(buf, meth, q, line.next);
  }

  /** The path and version part of http_header_parse, from the first character of the path. */
  method ParseRequestTarget(buf: string, meth: Method, q: nat, lineNext: nat) returns (r: RequestLineResult)
    requires NoNul(buf) && q <= |buf| && !RequestTarget(buf, meth, q, lineNext).LineUndefined?
    ensures r == RequestTarget(buf, meth, q, lineNext)
  {
    if q == |buf| || buf[q] != '/' {
      return LineFailed(400);
    }
    var t := FindDelimiter(buf, q, " ");
    var v := FindDelimiter(buf, t.next, CRLF);
    if v.length != 8 || buf[t.next + 5] != '1' {
      return LineFailed(400);
    }
    var version: Version;
    if buf[t.next + 7] == '1' {
      version := Http11;
    } else if buf[t.next + 7] == '0' {
      version := Http10;
    } else {
      return LineFailed(400);
    }
    return LineOk(meth, version, buf[q..q + t.length], lineNext);
  }

  /** The in-place cut of the duplicated path token: the file name ends at the first query mark. */
  method SplitPath(raw: string) returns (filename: string, query: string)
    ensures filename == PathName(raw) && query == PathQuery(raw)
  {
    var k := 0;
    while k < |raw| && !IsQueryMark(raw[k])
      invariant 0 <= k <= |raw|
      invariant QueryMark(raw[k..]) + k == QueryMark(raw)
    {
      assert raw[k..][1..] == raw[k + 1..];
      k := k + 1;
    }
    filename := raw[..k];
    query := if k < |raw| then raw[k + 1..] else "";
  }

  /** One line of the Connection loop, where the loop is defined. */
  lemma ConnectionLineStep(buf: string, p: nat)
    requires p <= |buf| && !ConnectionLine(buf, p).ConnLineUndefined?
    ensures var l := Delim(buf, p, CRLF);
      && (l.length == 0 ==> ConnectionLine(buf, p) == NoConnLine)
      && (l.length != 0 && NCaseEq(buf[p..], "Conn", 4) && p + 10 < |buf| && buf[p + 10] == ':' ==>
            11 <= l.length && p + l.length <= |buf|
            && ConnectionScanAsWritten(buf, p + 11, p + l.length, NoConnFlags).Some?
            && ConnectionLine(buf, p) == ConnLine(ConnectionScanAsWritten(buf, p + 11, p + l.length, NoConnFlags).value))
      && (l.length != 0 && !(NCaseEq(buf[p..], "Conn", 4) && p + 10 < |buf| && buf[p + 10] == ':') ==>
            l.next <= |buf| && ConnectionLine(buf, p) == ConnectionLine(buf, l.next))
  {
  }

  /** The loop of http_header_parse that looks for a Connection line from pos. */
  method FindConnectionLine(buf: string, pos: nat) returns (r: ConnLineResult)
    requires pos <= |buf| && !ConnectionLine(buf, pos).ConnLineUndefined?
    ensures r == ConnectionLine(buf, pos)
  {
    var p := pos;
    while true
      invariant p <= |buf|
      invariant ConnectionLine(buf, p) == ConnectionLine(buf, pos)
      decreases |buf| - p
    {
      var l := FindDelimiter(buf, p, CRLF);
      ConnectionLineStep(buf, p);
      if l.length == 0 {
        return NoConnLine;
      }
      if NCaseEq(buf[p..], "Conn", 4) && p + 10 < |buf| && buf[p + 10] == ':' {
        var f := ParseConnectionAsWritten(buf, p + 11, l.length - 11);
        return ConnLine(f);
      }
      p := l.next;
    }
  }

  /** http_header_parse: the request line, the cut of its path, the Connection line. */
  method HttpHeaderParse(buf: string) returns (r: ParseResult)
    requires NoNul(buf) && !ParseRequest(buf).ParseUndefined?
    ensures r == ParseRequest(buf)
  {
    var line := ParseRequestLine(buf);
    if line.LineFailed? {
      return ParseFailed(line.error);
    }
    var filename, query := SplitPath(line.path);
    var req := Request(line.requestMethod, line.version, None, filename, query, line.headerStart);
    var c := FindConnectionLine(buf, line.headerStart);
    if c.NoConnLine? {
      return Parsed(req);
    }
    return Parsed(req.(connection := Some(c.flags.Bits())));
  }

  // ---------------------------------------------------------------------------
  // http_header_getvalue

  /** The outcome of http_header_getvalue: no such line, the value found, or a read past the NUL. */
  datatype LookupResult = NotFound | Found(value: string) | LookupUndefined

  /** strndup(p, n) on the C string buf[q..]: at most n characters, stopping at the NUL. */
  function Strndup(buf: string, q: nat, n: nat): (r: string)
    requires q <= |buf|
    ensures IsPrefix(r, buf[q..])
    ensures |r| == (if n < |buf| - q then n else |buf| - q)
  {
    if n < |buf| - q then buf[q..q + n] else buf[q..]
  }

  /**
   * http_header_getvalue for key k over the header lines from pos: the
   * first line whose first short-key-length characters match the key up to
   * case and whose character just past the full key is ':' gives the value;
   * spaces after the colon are skipped and the value runs to the line's end.
   * The remaining length is an unsigned count, so on a line shorter than its
   * key it wraps around and the value runs on to the end of the text.  An
   * empty line ends the search.
   */
  function LookupEntry(buf: string, pos: nat, e: FieldKeyEntry): (r: LookupResult)
    requires NoNul(buf) && pos <= |buf|
    ensures r.Found? ==>
      exists p :: pos <= p && p + |e.key| < |buf| && NCaseEq(buf[p..], e.key, e.shortKeyLength) && buf[p + |e.key|] == ':'
    ensures pos == |buf| ==> r == NotFound
    decreases |buf| - pos
  {
    var l := Delim(buf, pos, CRLF);
    if l.length == 0 then NotFound
    else if NCaseEq(buf[pos..], e.key, e.shortKeyLength) && pos + |e.key| > |buf| then LookupUndefined
    else if NCaseEq(buf[pos..], e.key, e.shortKeyLength) && pos + |e.key| < |buf| && buf[pos + |e.key|] == ':' then
      Found(FieldValue(buf, pos, l.length, |e.key|))
    else if l.next > |buf| then LookupUndefined
    else LookupEntry(buf, l.next, e)
  }

  /**
   * The value of a matching line of lineLength characters at pos whose key
   * has keyLength characters: the spaces after the colon are skipped and the
   * rest of the line is duplicated.  The remaining length is unsigned, so on
   * a line shorter than that it wraps around and the copy runs on to the NUL.
   */
  function FieldValue(buf: string, pos: nat, lineLength: nat, keyLength: nat): string
    requires pos + keyLength < |buf|
  {
    var q := SkipSpaces(buf, pos + keyLength + 1);
    Strndup(buf, q, (lineLength - (q - pos)) % 0x1_0000_0000)
  }

  /** The lookup of a header key, through its row of http_field_keys. */
  function Lookup(buf: string, pos: nat, k: FieldKey): LookupResult
    requires NoNul(buf) && pos <= |buf|
  {
    LookupEntry(buf, pos, FieldKeys[FieldGetIndex(k)])
  }

  /** http_header_getvalue: rescans the header lines from header_start for the key. */
  method GetValue(buf: string, headerStart: nat, k: FieldKey) returns (r: LookupResult)
    requires NoNul(buf) && headerStart <= |buf| && !Lookup(buf, headerStart, k).LookupUndefined?
    ensures r == Lookup(buf, headerStart, k)
  {
    var index := FieldGetIndex(k);
    r := ScanForKey(buf, headerStart, FieldKeys[index]);
  }

  /** The loop of http_header_getvalue, for one row of the key table. */
  method ScanForKey(buf: string, headerStart: nat, e: FieldKeyEntry) returns (r: LookupResult)
    requires NoNul(buf) && headerStart <= |buf| && !LookupEntry(buf, headerStart, e).LookupUndefined?
    ensures r == LookupEntry(buf, headerStart, e)
  {
    var key, short := e.key, e.shortKeyLength;
    var line := headerStart;
    while true
      invariant line <= |buf|
      invariant LookupEntry(buf, line, e) == LookupEntry(buf, headerStart, e)
      decreases |buf| - line
    {
      var l := FindDelimiter(buf, line, CRLF);
      if l.length == 0 {
        return NotFound;
      }
      if NCaseEq(buf[line..], key, short) && line + |key| < |buf| && buf[line + |key|] == ':' {
        var value := ReadValue(buf, line, l.length, |key|);
        return Found(value);
      }
      line := l.next;
    }
  }

  /** The value part of http_header_getvalue: skip the spaces after the colon, duplicate the rest of the line. */
  method ReadValue(buf: string, pos: nat, lineLength: nat, keyLength: nat) returns (value: string)
    requires pos + keyLength < |buf|
    ensures value == FieldValue(buf, pos, lineLength, keyLength)
  {
    var p := pos + keyLength + 1;
    var remaining := lineLength - keyLength - 1;
    while p < |buf| && buf[p] == ' '
      invariant pos + keyLength + 1 <= p <= |buf|
      invariant SkipSpaces(buf, p) == SkipSpaces(buf, pos + keyLength + 1)
      invariant remaining == lineLength - (p - pos)
    {
      p := p + 1;
      remaining := remaining - 1;
    }
    value := Strndup(buf, p, remaining % 0x1_0000_0000);
  }

  /**
   * A line written as the serialiser writes a field line, "Key: value" and
   * CRLF, is read back by the lookup: the value comes out as it went in,
   * whatever follows the line.
   */
  lemma LookupReadsFieldLine(k: FieldKey, v: string, rest: string)
    requires |v| < 0x1_0000_0000 && (v == [] || v[0] != ' ')
    requires forall i :: 0 <= i < |v| ==> v[i] != '\r' && v[i] != '\0'
    requires NoNul(rest)
    ensures NoNul(KeyName(k) + ": " + v + CRLF + rest)
    ensures Lookup(KeyName(k) + ": " + v + CRLF + rest, 0, k) == Found(v)
  {
    var e := FieldKeys[FieldGetIndex(k)];
    assert 0 < e.shortKeyLength <= |e.key| && forall i :: 0 <= i < |e.key| ==> e.key[i] != '\r' && e.key[i] != '\0';
    assert NCaseEq(e.key, e.key, e.shortKeyLength);
    LookupEntryReadsLine(e, e.key, v, rest);
  }

  /**
   * A line "name: value" CRLF is taken for the entry's line when the name
   * has the key's length and agrees with it on the short key length.
   */
  lemma LookupEntryReadsLine(e: FieldKeyEntry, name: string, v: string, rest: string)
    requires 0 < e.shortKeyLength <= |e.key| == |name| && NCaseEq(name, e.key, e.shortKeyLength)
    requires forall i :: 0 <= i < |name| ==> name[i] != '\r' && name[i] != '\0'
    requires |v| < 0x1_0000_0000 && (v == [] || v[0] != ' ')
    requires forall i :: 0 <= i < |v| ==> v[i] != '\r' && v[i] != '\0'
    requires NoNul(rest)
    ensures NoNul(name + ": " + v + CRLF + rest)
    ensures LookupEntry(name + ": " + v + CRLF + rest, 0, e) == Found(v)
  {
    var x := name + ": " + v;
    var buf := x + CRLF + rest;
    var n := |name|;
    FieldLineText(name, v);
    LineEnd(x, rest);
    assert NoNul(buf) by {
      assert forall j :: |x| + 2 <= j < |buf| ==> buf[j] == rest[j - |x| - 2];
    }
    assert buf[..|x|] == x && x[..n] == name && x[n..n + 2] == ": ";
    assert NCaseEq(buf, e.key, e.shortKeyLength) by {
      assert buf[..e.shortKeyLength] == name[..e.shortKeyLength];
    }
    assert SkipSpaces(buf, n + 1) == n + 2 by {
      assert buf[n + 1] == ' ' && buf[n + 2] != ' ';
    }
    LookupEntryOfLine(buf, e, |x|);
    assert buf[n + 2..|x|] == v;
  }

  /** The text of a field line before its CRLF holds no CR and no NUL. */
  lemma FieldLineText(name: string, v: string)
    requires forall i :: 0 <= i < |name| ==> name[i] != '\r' && name[i] != '\0'
    requires forall i :: 0 <= i < |v| ==> v[i] != '\r' && v[i] != '\0'
    ensures var x := name + ": " + v;
      forall j :: 0 <= j < |x| ==> x[j] != '\r' && x[j] != '\0'
  {
    var x := name + ": " + v;
    assert forall j :: 0 <= j < |name| ==> x[j] == name[j];
    assert forall j :: |name| + 2 <= j < |x| ==> x[j] == v[j - |name| - 2];
  }

  /** The first line of x CRLF rest, for an x without CR, is x. */
  lemma LineEnd(x: string, rest: string)
    requires forall j :: 0 <= j < |x| ==> x[j] != '\r'
    ensures Delim(x + CRLF + rest, 0, CRLF) == Delimited(|x|, |x| + 2)
  {
    var buf := x + CRLF + rest;
    assert buf[|x|..|x| + 2] == CRLF;
    assert forall j :: 0 <= j < |x| ==> buf[j] == x[j];
    DelimAt(buf, 0, CRLF, |x|);
  }

  /** LookupEntry on a buffer whose first line matches the entry and has its value at key length plus two. */
  lemma LookupEntryOfLine(buf: string, e: FieldKeyEntry, len: nat)
    requires NoNul(buf) && |e.key| + 2 <= len && len + 2 <= |buf| && len - |e.key| - 2 < 0x1_0000_0000
    requires Delim(buf, 0, CRLF) == Delimited(len, len + 2)
    requires NCaseEq(buf, e.key, e.shortKeyLength) && buf[|e.key|] == ':'
    requires SkipSpaces(buf, |e.key| + 1) == |e.key| + 2
    ensures LookupEntry(buf, 0, e) == Found(buf[|e.key| + 2..len])
  {
    assert buf[0..] == buf;
  }

  /**
   * The short key length at work: only the first character of "Host" is
   * compared, so a line "Hxyz: a" is taken for the Host line.
   */
  lemma LookupShortKeyMatches()
    ensures Lookup("Hxyz" + ": " + "a" + CRLF + CRLF, 0, Hostname) == Found("a")
  {
    var e := FieldKeys[FieldGetIndex(Hostname)];
    assert e == FieldKeyEntry(Hostname, "Host", 1);
    assert NCaseEq("Hxyz", e.key, 1) by {
      assert "Hxyz"[..1] == "H" == e.key[..1];
    }
    LookupEntryReadsLine(e, "Hxyz", "a", CRLF);
  }

  /** An empty line ends the search before any line after it. */
  lemma LookupStopsAtEmptyLine()
    ensures Lookup("\r\nHost: a\r\n", 0, Hostname) == NotFound
  {
    var c := "\r\nHost: a\r\n";
    assert c[0..2] == CRLF;
    DelimAt(c, 0, CRLF, 0);
  }

  /** A request line as a client writes it: method, space, path, space, version, CRLF. */
  function RequestLineText(m: Method, path: string, v: Version): string {
    MethodName(m) + " " + path + " " + VersionName(v) + CRLF
  }

  /**
   * A request line written the standard way is read back: its method, its
   * path token and its version, with the header lines starting just past
   * the CRLF, whatever follows.
   */
  lemma RequestLineRoundTrip(m: Method, path: string, v: Version, rest: string)
    requires m == Get || m == Head
    requires v == Http10 || v == Http11
    requires |path| > 0 && path[0] == '/'
    requires forall i :: 0 <= i < |path| ==> path[i] != ' ' && path[i] != '\r' && path[i] != '\0'
    requires NoNul(rest)
    ensures NoNul(RequestLineText(m, path, v) + rest)
    ensures RequestLine(RequestLineText(m, path, v) + rest) == LineOk(m, v, path, |RequestLineText(m, path, v)|)
  {
    var buf := RequestLineText(m, path, v) + rest;
    RequestLineLayout(m, path, v, rest, buf);
    RequestLineOfLayout(buf, m, path, v);
  }

  /** RequestLine on a buffer whose pieces sit where a written request line puts them. */
  lemma RequestLineOfLayout(buf: string, m: Method, path: string, v: Version)
    requires NoNul(buf)
    requires m == Get || m == Head
    requires v == Http10 || v == Http11
    requires |path| > 0 && path[0] == '/'
    requires var a := |MethodName(m)|; var b := a + 1 + |path|; var L := b + 9;
      && L + 2 <= |buf| && buf[..a] == MethodName(m) && buf[a..a + 1] == " " && buf[a + 1..b] == path
      && buf[b..b + 1] == " " && buf[L..L + 2] == CRLF
      && (forall j :: 0 <= j < a ==> buf[j] != ' ' && buf[j] != '\r')
      && (forall j :: a < j < b ==> buf[j] != ' ' && buf[j] != '\r')
      && (forall j :: b < j < L ==> buf[j] != '\r')
      && buf[b + 6] == '1' && buf[b + 8] == (if v == Http11 then '1' else '0')
    ensures RequestLine(buf) == LineOk(m, v, path, |MethodName(m)| + |path| + 12)
  {
    var a := |MethodName(m)|;
    var b := a + 1 + |path|;
    var L := b + 9;
    assert buf[a] == ' ' && buf[b] == ' ' by {
      assert buf[a..a + 1][0] == buf[a] && buf[b..b + 1][0] == buf[b];
    }
    assert forall k :: 0 <= k < L ==> buf[k] != '\r' by {
      forall k | 0 <= k < L ensures buf[k] != '\r' {
        if k == a || k == b {
        } else if k < a {
        } else if k < b {
        } else {
        }
      }
    }
    DelimAt(buf, 0, CRLF, L);
    DelimAt(buf, 0, " ", a);
    MethodOfName(buf, m);
    assert buf[a + 1] == path[0];
    DelimAt(buf, a + 1, " ", b);
    DelimAt(buf, b + 1, CRLF, L);
    RequestLineOfTokens(buf, m, path, v, a, b);
  }

  /** A buffer that starts with a method's name and more selects that method. */
  lemma MethodOfName(buf: string, m: Method)
    requires m == Get || m == Head
    requires |MethodName(m)| < |buf| && buf[..|MethodName(m)|] == MethodName(m)
    ensures MethodOfToken(buf, |MethodName(m)|) == m
  {
    if m == Head {
      assert !NCaseEq(buf, "GET", 4);
    }
  }

  /** RequestLine once the positions find_delimiter reports are known. */
  lemma RequestLineOfTokens(buf: string, m: Method, path: string, v: Version, a: nat, b: nat)
    requires NoNul(buf) && (m == Get || m == Head) && (v == Http10 || v == Http11)
    requires 12 <= b + 9 && a < b && b + 11 <= |buf|
    requires Delim(buf, 0, CRLF) == Delimited(b + 9, b + 11)
    requires Delim(buf, 0, " ") == Delimited(a, a + 1) && a > 0 && MethodOfToken(buf, a) == m
    requires buf[a + 1] == '/' && Delim(buf, a + 1, " ") == Delimited(b - a - 1, b + 1) && buf[a + 1..b] == path
    requires Delim(buf, b + 1, CRLF) == Delimited(8, b + 11)
    requires buf[b + 6] == '1' && buf[b + 8] == (if v == Http11 then '1' else '0')
    ensures RequestLine(buf) == LineOk(m, v, path, b + 11)
  {
    assert SkipSpaces(buf, a + 1) == a + 1;
  }

  /** Where the pieces of a written request line sit in the buffer. */
  lemma RequestLineLayout(m: Method, path: string, v: Version, rest: string, buf: string)
    requires m == Get || m == Head
    requires v == Http10 || v == Http11
    requires buf == RequestLineText(m, path, v) + rest
    requires NoNul(rest) && forall i :: 0 <= i < |path| ==> path[i] != ' ' && path[i] != '\r' && path[i] != '\0'
    ensures NoNul(buf)
    ensures var a := |MethodName(m)|; var b := a + 1 + |path|; var L := b + 9;
      && L + 2 <= |buf| && buf[..a] == MethodName(m) && buf[a..a + 1] == " " && buf[a + 1..b] == path
      && buf[b..b + 1] == " " && buf[L..L + 2] == CRLF
      && (forall j :: 0 <= j < a ==> buf[j] != ' ' && buf[j] != '\r')
      && (forall j :: a < j < b ==> buf[j] != ' ' && buf[j] != '\r')
      && (forall j :: b < j < L ==> buf[j] != '\r')
      && buf[b + 6] == '1' && buf[b + 8] == (if v == Http11 then '1' else '0')
  {
    var M, V := MethodName(m), VersionName(v);
    assert |V| == 8 && V[5] == '1' && V[7] == (if v == Http11 then '1' else '0');
    assert forall j :: 0 <= j < |M| ==> M[j] != ' ' && M[j] != '\r' && M[j] != '\0';
    assert forall j :: 0 <= j < |V| ==> V[j] != '\r' && V[j] != '\0';
    Pieces(M, path, V, rest);
  }

  /** Where the pieces of x SP y SP z CRLF rest sit. */
  lemma Pieces(x: string, y: string, z: string, rest: string)
    ensures var buf := x + " " + y + " " + z + CRLF + rest;
      var a := |x|; var b := a + 1 + |y|; var L := b + 1 + |z|;
      && |buf| == L + 2 + |rest| && buf[..a] == x && buf[a..a + 1] == " " && buf[a + 1..b] == y
      && buf[b..b + 1] == " " && buf[L..L + 2] == CRLF
      && (forall j :: 0 <= j < a ==> buf[j] == x[j])
      && (forall j :: a < j < b ==> buf[j] == y[j - a - 1])
      && (forall j :: b < j < L ==> buf[j] == z[j - b - 1])
      && (forall j :: L + 2 <= j < |buf| ==> buf[j] == rest[j - L - 2])
      && buf[a] == ' ' && buf[b] == ' ' && buf[L] == '\r' && buf[L + 1] == '\n'
  {
  }

  /**
   * A request with no header lines parses to its method, version, file name
   * and query, with no Connection bits.
   */
  lemma ParseRoundTrip(m: Method, path: string, v: Version, tail: string)
    requires m == Get || m == Head
    requires v == Http10 || v == Http11
    requires |path| > 0 && path[0] == '/'
    requires forall i :: 0 <= i < |path| ==> path[i] != ' ' && path[i] != '\r' && path[i] != '\0'
    requires NoNul(tail)
    ensures NoNul(RequestLineText(m, path, v) + CRLF + tail)
    ensures ParseRequest(RequestLineText(m, path, v) + CRLF + tail)
      == Parsed(Request(m, v, None, PathName(path), PathQuery(path), |RequestLineText(m, path, v)|))
  {
    var line := RequestLineText(m, path, v);
    var buf := line + CRLF + tail;
    assert buf == line + (CRLF + tail);
    RequestLineRoundTrip(m, path, v, CRLF + tail);
    EmptyLineAfter(line, tail);
    ParseOfEmptyHeader(buf, m, v, path, |line|);
  }

  /** An empty line right after x. */
  lemma EmptyLineAfter(x: string, tail: string)
    ensures Delim(x + CRLF + tail, |x|, CRLF) == Delimited(0, |x| + 2)
  {
    var buf := x + CRLF + tail;
    assert buf[|x|..|x| + 2] == CRLF;
    DelimAt(buf, |x|, CRLF, |x|);
  }

  /** A request line followed at once by the empty line parses with no Connection bits. */
  lemma ParseOfEmptyHeader(buf: string, m: Method, v: Version, path: string, h: nat)
    requires NoNul(buf) && h <= |buf|
    requires RequestLine(buf) == LineOk(m, v, path, h) && Delim(buf, h, CRLF).length == 0
    ensures ParseRequest(buf) == Parsed(Request(m, v, None, PathName(path), PathQuery(path), h))
  {
  }
}
