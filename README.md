# tinysrv request-serving core in Dafny

tinysrv is a small HTTP/HTTPS server that answers ad and tracker requests
with decoy content: a 1x1 GIF, an empty script or a `204 No Content`. It
also serves real files from a per-host directory and unwraps click-counter
redirects. This project models the server's request-serving logic and
proves properties of it. The modules follow the C files:

- `CStr` (cstr.dfy): C string and ctype helpers shared by all modules.
  This covers reading a buffer up to its NUL, case-insensitive comparison,
  `isprint`/`isalnum` in the C locale, and `%d` formatting.
- `Utils` (utils.dfy): the scanning primitives of `src/utils.c`.
  - `find_delimiter`, `strnstr` and `strstr_last` are methods with loops,
    proved against specification functions.
  - `decode_url`, `change_dots_to_underscore` and
    `ts_concatenate_path_filename` work in place on an `array<char>`.
  - `is_safe_filename` and `from_hex` are a predicate and a function.
- `Mime` (mime.dfy): the decoy payloads and the MIME table of `src/mime.h`,
  byte for byte, and `get_mime`.
- `Http` (http.dfy): the tables of `src/http.h` and the codec of
  `src/http.c`. This covers:
  - the request-line parser and the `Connection` token scanner;
  - the lazy header lookup, which rescans the header block on each call;
  - the response-field setter, modelled on an array;
  - the header serialiser, which fills a buffer.
- `Dispatch` (dispatch.dfy): `handle_file`, `handle_redirect`,
  `handle_jsclose` and `serve` from `src/connection.c`, plus the response
  assembly of `connection_new` and `connection_write`.
  - `Respond` composes parsing, dispatch and assembly for one received
    buffer.
  - The filesystem is a map from path to an optional file size (`None`
    means the path exists but is not a regular file).
- `Config` (config.dfy): the argv state machine of `ts_configuration_parse`.
  It is a class whose `Parse` method is proved against the function `Run`.
- `Tls` (ssl.dfy): the SNI callback's certificate-name derivation and the
  chunked write loop of `ts_ssl_sendfile`. `stat`, loadcert and
  `SSL_write` are oracles passed in as parameters.
- `Supervisor` (fork.dfy): the process registry of `src/fork.c`. It is a
  class `ProcessTable` whose methods are proved against the functions that
  specify one supervisor round. `fork()` and `waitpid()` results are inputs;
  `kill()` becomes the list of pids signalled.

Where the behaviour of the code differs from its documentation, the model
follows the code:

- The wildcard certificate name replaces the character before the first
  `_` of the sanitised name, not the one before the second separator.
  `www_example_com` becomes `+_example_com` (`Tls.WildcardExample`).
- The 0x16 sniff in `connection_new` looks at the first byte read on every
  socket, not only on sockets without TLS. It sends the 8 bytes of
  `content_noSSL`: a 7-byte fatal alert record with description 0
  (close_notify), then one zero byte more (see Findings).
- `/generate_204` is answered with 204 only when the file rule did not
  serve a file first.
- The header lookup skips only spaces after the colon, not tabs. Method
  and path tokens are split at single spaces, with `find_delimiter(" ")`.

## Model

| member | source | states |
|---|---|---|
| CStr.Decimal | src/connection.c:302-303 | `%d` formatting yields a non-empty text made only of digits for a non-negative length |
| CStr.DecimalValue | src/connection.c:302-303 | the digits written for a non-negative number denote that number, with no leading zero; a negative number is `-` followed by the digits of its magnitude |
| CStr.DecimalBelowThousand | src/http.c:274-275 | a status code or payload size below 1000 takes at most three characters |
| CStr.CString | src/connection.c:401 | reading a buffer as a C string yields its longest NUL-free prefix, stopping exactly at the first NUL |
| Utils.FindDelimiter | src/utils.c:6-47 | the loop computes exactly the find_delimiter automaton: the length before the match and the end position, or the whole rest with the end one past the NUL |
| Utils.Delim | src/utils.c:6-47 | for a non-empty delimiter, either no match (whole remaining length, end one past the NUL) or a match whose end is start + length + delimiter length |
| Utils.DelimIsExact | src/utils.c:25-46 | for a delimiter whose first character does not recur (`"\r\n"`, `" "`, `":"`), find_delimiter reports exactly the first occurrence |
| Utils.DelimFound | src/utils.c:25-46 | when find_delimiter reports a match, the delimiter really sits just before the end position |
| Utils.DelimAt | src/utils.c:6-47 | a delimiter at p with no earlier occurrence of its first character is reported at p |
| Utils.FirstOccurrenceAt | src/utils.c:6-47 | the reference first-occurrence function finds exactly the first position where the needle occurs |
| Utils.DelimRestartQuirk | src/utils.c:34-39 | restarting a partial match only at delimiters[0] misses `"aab"` in `"aaab"`, although it occurs at 1 |
| Utils.StrnstrAsWritten | src/utils.c:49-65 | strnstr as written finds the first occurrence starting below len - needle length, and no other |
| Utils.StrnstrMissesLastPosition | src/utils.c:57-58 | as written, strnstr does not find `"c"` in `"abc"` with len 3, although it fits |
| Utils.Strnstr | src/utils.c:49-65 | corrected strnstr: the first occurrence that fits within len; none means no occurrence fits |
| Utils.StrstrLast | src/utils.c:67-93 | the rightmost occurrence of the needle; the start for an empty needle; none when it does not occur |
| Utils.LastOccurrence | src/utils.c:67-93 | reference definition: an occurrence with no occurrence to its right, or none at all |
| Utils.FromHex | src/utils.c:95-104 | a hex digit maps to its value (case-insensitively); any other character maps to 0 |
| Utils.HexDigitsRoundTrip | src/utils.c:95-104 | decoding the two lowercase hex digits of a byte gives back that byte |
| Utils.Decode | src/utils.c:106-118 | decoding never lengthens the text |
| Utils.DecodeUrl | src/utils.c:106-118 | the in-place loop writes the one-pass decoding of the NUL-terminated input, then a NUL; the output is no longer than the input |
| Utils.DecodeEncodeAll | src/utils.c:106-118 | percent-encoding every byte and then decoding gives back the original text |
| Utils.DecodeEscape | src/utils.c:110-113 | `%XY` with two hex digits becomes the one byte they name |
| Utils.DecodeWithoutPercent | src/utils.c:106-118 | a text without `%` is unchanged by decoding |
| Utils.DecodeIsOnePass | src/utils.c:106-118 | `%2568` decodes to `%68` and only a second decoding gives `h` |
| Utils.ChangeDotsToUnderscore | src/utils.c:120-138 | the in-place loop leaves exactly the sanitised text and returns the sanitiser's count or -1; bytes past n are untouched |
| Utils.SanitizeCountsDots | src/utils.c:120-138 | on success the result counts the dots of the input, which equal the underscores of the output, and every output character is alphanumeric, `-` or `_` |
| Utils.SanitizeUpTo | src/utils.c:120-138 | success iff every character is a host character; on failure -1, with dots before the first bad character already replaced and the rest unchanged |
| Utils.Underscored | src/utils.c:127-133 | a character becomes `_` exactly when it is `.` or already `_` |
| Utils.SafeFilenameIff | src/utils.c:140-160 | a filename is safe iff all its characters are printable and not `%`, and it contains neither `..` nor `//` |
| Utils.JoinPath | src/utils.c:162-195 | the joined path is the path, one `/` only when the path is non-empty and lacks one, then the filename |
| Utils.ConcatenatePathFilename | src/utils.c:162-195 | -1 for a missing filename or when the join plus NUL exceeds the buffer (buffer unchanged); otherwise 0 with the joined path and a NUL written |
| Mime.GetMime | src/connection.c:17-45 | the table search returns the MIME entry that the lookup function specifies |
| Mime.MimeForIsFirstMatch | src/connection.c:17-45 | no extension or one not starting with `.` gives no_mime; otherwise the first entry whose prefix matches case-insensitively, or the sentinel exactly when none matches |
| Mime.FirstMimeIsFirst | src/connection.c:29-40 | the table walk returns the first matching entry, or the sentinel when no entry matches |
| Mime.PayloadRows | src/mime.h:155-167 | only gif, png, jp, webp, swf and ico carry a payload; payload sizes are 42, 67, 159, 42, 25 and 70 bytes and agree with the lengths stored in the WebP and SWF headers |
| Http.TableLayout | src/http.h:33-44 | seven field keys and eight field slots; Connection is key code 3 in slot 5; short match lengths never exceed the key |
| Http.GetStatus | src/http.c:26-37 | a code is in the table iff it is 200, 204, 307, 400 or 501; then the entry carries that code, else the 500 fallback |
| Http.StatusFrom | src/http.c:26-37 | the table walk returns an entry with the code asked for, or the fallback exactly when no later entry has it |
| Http.UnknownStatusLine | src/http.c:274-275 | a status missing from the table is written as `500 Internal Server Error` |
| Http.RedirectStatusLine | src/http.h:96-103 | status 307 on a 1.0 response is written as `HTTP/1.0 307 Temporary Redirect` |
| Http.FieldGetIndex | src/http.c:39-56 | the slot found holds the key asked for |
| Http.FieldIndexBijective | src/http.c:39-56 | keys and slots correspond one to one |
| Http.SetField | src/http.c:242-257 | a missing value or the Host key gives -1 and no change; otherwise only the key's slot changes, to the value |
| Http.SetValue | src/http.c:242-257 | the array update returns the setter's code and leaves the array equal to the setter's fields |
| Http.SetFieldLastWins | src/http.c:250-254 | setting a key twice is the same as setting it once to the later value |
| Http.HeaderText | src/http.c:259-287 | the header text starts with the status line and ends with CRLF |
| Http.HeaderTextHoldsField | src/http.c:277-282 | every present field appears as `Key: value` CRLF, right after the status line and the earlier fields |
| Http.HeaderSaysLength | src/http.c:277-282 | a response with Content-length set holds the line `Content-length: <value>` CRLF |
| Http.HeaderSaysType | src/http.c:277-282 | a response with Content-type set holds the line `Content-type: <type>` CRLF |
| Http.FieldLinesEndLine | src/http.c:277-282 | the field lines are empty or end with CRLF |
| Http.StatusLineEndsLine | src/http.c:274-275 | the status line ends with CRLF |
| Http.HeaderTextEndsEmptyLine | src/http.c:259-287 | the header ends with CRLF CRLF: its last line and the empty line after it |
| Http.FieldLinesBound | src/http.c:277-282 | with values of at most m characters, the field lines take at most m + 20 characters per key |
| Http.HeaderTextBound | src/http.c:259-287 | a header whose values are at most m characters long takes at most 39 + 7(m + 20) characters |
| Http.ClosedResponseLines | src/http.c:259-287 | a 1.0 response with a table status and `Connection: close` starts with `HTTP/1.0 <code> <reason>` CRLF and contains `Connection: close` CRLF |
| Http.HeaderSaysClose | src/http.c:277-282 | a response whose Connection slot is `close` contains the line `Connection: close` CRLF |
| Http.FieldLinesPrefix | src/http.c:277-282 | the field lines written so far are a prefix of the lines written later |
| Http.FillOverrunsOnLongLocation | src/http.c:259-287 | as written, a Location of 8173 characters or more makes fill store more than the 8192-byte buffer holds |
| Http.Fill | src/http.c:259-287 | corrected fill: -1 with the buffer unchanged iff the header text exceeds buflen; otherwise the header text and a NUL, and its length |
| Http.WriteFieldLines | src/http.c:277-282 | the loop over the key table produces exactly the field lines of all present fields, in table order |
| Http.ConnFlags.Bits | src/http.h:60-63 | the flag word has bit KEEPALIVE (1) iff keep-alive and bit UPGRADE (4) iff upgrade |
| Http.ConnectionScan | src/http.c:58-109 | corrected scan: the keep-alive bit is newly set only if a `keep-alive` token lies in the scanned range, the upgrade bit only if an `upgra` token does |
| Http.ConnectionScanAsWritten | src/http.c:58-109 | as written: the scan can fail to return only if the range holds a k, c or u; a character other than these, space and comma ends it with the flags unchanged |
| Http.ParseConnectionAsWritten | src/http.c:58-109 | the `str` loop as written, where it returns, computes the as-written scan |
| Http.ConnectionScanAgrees | src/http.c:58-109 | wherever the scan as written terminates, the corrected scan gives the same flags |
| Http.ConnectionScanHangsOnCookie | src/http.c:70-95 | as written, the scan makes no progress on `cookie`: a token starting with c that is not `close` never ends the loop |
| Http.ConnectionScanKeepsUpgrade | src/http.c:88-95 | once upgrade is set no later token clears it |
| Http.ConnectionScanKeepAliveUpgrade | src/http.c:58-109 | `keep-alive, Upgrade` gives flags 5 |
| Http.ConnectionScanKeepAliveClose | src/http.c:70-86 | `keep-alive, close` gives flags 0, since close clears keep-alive |
| Http.ParseConnection | src/http.c:58-109 | corrected: the `str` loop computes the corrected scan, which ends on an unmatched token |
| Http.MethodOfTokenIsPrefix | src/http.c:125-142 | a token selects GET, HEAD or POST, in that order of preference, iff it is a non-empty case-insensitive prefix of that name |
| Http.QueryMark | src/http.c:150-163 | the cut is at the first of `?`, `#`, `;`, `=` or space, or at the end when there is none |
| Http.PathSplits | src/http.c:150-163 | filename, cut character and query together give back the path token; the filename holds no cut character |
| Http.Strndup | src/http.c:150-152 | the copy is the first min(n, remaining) characters of the text |
| Http.RequestLine | src/http.c:111-185 | the request line fails with 400 or 501 only; success means GET or HEAD, a known version and a path starting with `/` |
| Http.RequestTarget | src/http.c:145-185 | after the method, only 400 can fail; success means the path starts with `/` and the version is known |
| Http.ParseRequest | src/http.c:111-209 | parsing fails with 400 or 501 only; a parsed request is GET or HEAD with a filename starting with `/`; a Connection scan that never returns makes the parse Undefined |
| Http.ParseRequestLine | src/http.c:111-185 | the token loop computes the request-line function |
| Http.ParseRequestTarget | src/http.c:145-185 | the path and version scan computes the request-target function |
| Http.ConnectionLine | src/http.c:187-205 | a Connection result is only reported for a line starting with `Conn` up to case with `:` as its eleventh character; at the end of the text there is none |
| Http.ConnectionLineStep | src/http.c:190-205 | one line of the loop: an empty line ends it with no result, a Connection line is scanned as written, any other line moves on to the next |
| Http.SplitPath | src/http.c:150-163 | the strndup and cut give exactly the specified filename and query |
| Http.FindConnectionLine | src/http.c:187-205 | the line loop finds the first Connection line and scans it as written, as specified |
| Http.HttpHeaderParse | src/http.c:111-209 | the parser computes the specified parse result |
| Http.GetValue | src/http.c:211-240 | the lookup computes the specified lookup for that key's table entry |
| Http.ScanForKey | src/http.c:219-238 | the line loop computes the specified per-entry lookup |
| Http.LookupEntry | src/http.c:219-238 | a value is found only at a line whose first short-key-length characters match the key and whose character just past the key is `:`; at the end of the text nothing is found |
| Http.ReadValue | src/http.c:224-237 | the value is read past the key, the colon and leading spaces, to the end of the line |
| Http.LookupReadsFieldLine | src/http.c:211-240 | a header written as `Key: value` CRLF is read back as that value |
| Http.LookupEntryReadsLine | src/http.c:219-238 | any line whose first short_key_length characters match, followed by `: value` CRLF, is read as that value |
| Http.LookupShortKeyMatches | src/http.h:34-40 | with a short length of 1 for Host, a line `Hxyz: a` is taken for the Host line |
| Http.LookupStopsAtEmptyLine | src/http.c:219 | a blank line ends the search, so a Host line after it is not found |
| Http.RequestLineRoundTrip | src/http.c:111-185 | a request line written as method, space, path, space, version, CRLF parses back to that method, path and version, with the header block right after |
| Http.ParseRoundTrip | src/http.c:111-209 | a written request line followed by a blank line parses to its method, version, filename and query |
| Http.ParseOfEmptyHeader | src/http.c:187-208 | a good request line followed by a blank line parses with no Connection flags |
| Dispatch.Int32 | src/connection.c:111-112 | a file size is stored as a 32-bit int: unchanged when it fits, wrapped otherwise |
| Dispatch.Conn.WithStatus | src/connection.c:242 | setting the status changes nothing else in the record |
| Dispatch.Conn.WithField | src/connection.c:232 | setting a field keeps the status, version, body and length |
| Dispatch.Extension | src/connection.c:229 | the extension is the suffix from the last `.`, or none when the filename has no dot |
| Dispatch.HostCut | src/connection.c:66-72 | the host is cut just before its first `:`; a host with no `:`, or starting with one, is kept whole |
| Dispatch.ColonDelim | src/connection.c:66 | find_delimiter with `:` reports the position of the first `:`, or the whole length when there is none |
| Dispatch.TargetOf | src/connection.c:55-92 | a target is built only for a filename other than `/`, a present Host and a path within the bound; BadHost exactly when the host passes the shape checks and fails sanitising |
| Dispatch.TargetStaysUnderServePath | src/connection.c:80-103 | the built path starts with the serve path, then holds only sanitised host characters, then ends with the filename |
| Dispatch.FilePathLayout | src/connection.c:96-103 | the path built from a sanitised host places it between the serve path and the filename |
| Dispatch.HandleFile | src/connection.c:47-135 | success iff a target exists, is a regular file and the method is GET or HEAD; then status 200, the length is the file size, and only GET keeps the file; a bad host gives 400, a path that is no regular file 403, another method on a regular file 501 |
| Dispatch.CountedLengthAsWritten | src/connection.c:66-92 | reference for the length handle_file counts, one short of the real host length |
| Dispatch.HostLengthOffByOne | src/connection.c:66-92 | as written, the counted length is one less than the real path length, so a 200-byte path passes the 200-byte bound |
| Dispatch.DoubleDecoded | src/connection.c:152-156 | the twice-decoded query is no longer than the query and holds no NUL |
| Dispatch.RedirectUrl | src/connection.c:158-161 | the URL is the suffix from the last `http://`, or from the last `https://` only when there is no `http://`; none iff neither occurs |
| Dispatch.HandleRedirect | src/connection.c:137-180 | success iff the query carries `=http`, a URL is found and Referer does not veto it; then status 307 and Location set to the URL, else the record is unchanged |
| Dispatch.RedirectToLastLink | src/connection.c:158-161 | the URL found is the last `http://` link of the query |
| Dispatch.RedirectsToPlainLink | src/connection.c:137-180 | a query `key=http://...` without escapes and no Referer redirects to that URL with status 307 |
| Dispatch.PlainQuery | src/connection.c:143-156 | a query without `%` is unchanged by double decoding and passes the `=http` test |
| Dispatch.DoubleDecodeUndoesDoubleEncoding | src/connection.c:149-156 | decoding twice undoes percent-encoding twice |
| Dispatch.JsCloseBody | src/connection.h:26-30 | the close script is 147 bytes |
| Dispatch.HandleJsClose | src/connection.c:182-211 | fires iff the MIME type is htm, or there is no known extension and Accept is present and not `*/*`; then text/html, status 200 and length 147, with a body only for GET |
| Dispatch.Decoy | src/connection.c:258-267 | the decoy rule sets status 200 and the payload size as length, with the payload as body only for GET |
| Dispatch.QueryOf | src/connection.c:223-230 | the dispatch query carries the request's method, filename and query and the MIME type of the filename |
| Dispatch.RedirectRule | src/connection.c:247-251 | when the redirect rule fires, the status is 307 and the Connection and Content-type fields are kept; the body is never changed |
| Dispatch.CloseRule | src/connection.c:253-256 | when the close-script rule fires, the status is 200 with a Content-type, and the Connection field is kept; only a GET gets a body |
| Dispatch.LaterRules | src/connection.c:239-267 | the rules after the file rule always serve, with status 200, 204 or 307, keeping Connection and Content-type; a request other than GET gets no body (which rule answers: the ServeBy lemmas) |
| Dispatch.FileRule | src/connection.c:234-237 | the file rule changes at most the status, succeeds only with status 200, and gives a file to send only to a GET |
| Dispatch.Serve | src/connection.c:213-270 | GET and HEAD are served with status 200, 204 or 307 and a Content-type; any other method fails with 501 and the record unchanged; a request other than GET gets no body (rule order: the ServeBy lemmas) |
| Dispatch.ServeByFile | src/connection.c:232-237 | the file rule answers first: a regular file at the target gives status 200, the file size as length, the descriptor for a GET, and the Content-type of the name's row |
| Dispatch.ServeBy204 | src/connection.c:239-245 | when the file rule finds nothing and the 204 rule fires, only the status changes, to 204: length, body and descriptor stay, Content-type is the row's |
| Dispatch.ServeByRedirect | src/connection.c:247-251 | when neither earlier rule answers and the query redirects past the Referer veto, the status is 307 and Location is the URL of the twice-decoded query; length, body and descriptor stay |
| Dispatch.ServeByClose | src/connection.c:253-256 | when no earlier rule answers and the close script fires, the status is 200, the type text/html and the length 147, and a GET gets the closing page |
| Dispatch.ServeByDecoy | src/connection.c:258-269 | when no rule answers, the status is 200 under the row's Content-type with no other field changed, the length is the payload size (0 without one), and a GET gets the payload |
| Dispatch.InitialConn | src/connection.c:380-421 | the record starts with no body, length -1, version 1.0 and `Connection: close` as the only field |
| Dispatch.Announced | src/connection.c:302-305 | Content-length is set to the decimal length exactly when the length is above -1; all else is kept |
| Dispatch.WrittenLayout | src/connection.c:300-315 | the header sent starts with the record's status line, ends with an empty line, and holds `Content-length: <digits>` CRLF whenever the length is above -1 |
| Dispatch.RequestText | src/connection.c:388-401 | the request text is the NUL-free prefix of what was received |
| Dispatch.ErrorToStatus | src/connection.c:430-431 | a non-zero error replaces the status; nothing else changes |
| Dispatch.Answer | src/connection.c:419-431 | every answer is version 1.0 with `Connection: close` and status 200, 204, 307, 400 or 501; a parse error becomes the status with no body |
| Dispatch.Respond | src/connection.c:380-455 | an empty read gets nothing; a raw reply is sent iff the first byte is 0x16, and it is the 8 bytes of `content_noSSL`, one more than its record header announces |
| Dispatch.NoSslTrailingByte | src/connection.c:397-398 | as written, the 0x16 reply is one byte longer than the alert record its header announces |
| Dispatch.RespondCorrected | src/connection.c:397-398 | corrected reply: the 7-byte alert for a read starting with 0x16, the reply of connection_new for anything else |
| Dispatch.HandshakeGetsOneAlertRecord | src/connection.h:18-24 | corrected: a buffer starting with 0x16 is answered by exactly one 7-byte fatal alert record, which the source sends followed by a zero byte |
| Dispatch.RespondEndToEnd | src/connection.c:393-433 | any HTTP reply starts with `HTTP/1.0 <code> <reason>` for a table status and carries `Connection: close`; a parse error is reported as its status with no body |
| Dispatch.HeadGetsNoBody | src/connection.c:118-124 | a HEAD request that gets an HTTP reply gets no body: no rule gives it a file or a constant body |
| Dispatch.NoContentPathHasNoPayload | src/connection.c:229-230 | a generate_204 URL holds no dot, so it selects no_mime |
| Dispatch.PayloadRowIsListed | src/mime.h:155-167 | a row with a payload is one of the image and Flash rows: it has an extension other than htm and a type of at most 29 characters |
| Dispatch.DecoyAnswer | src/connection.c:213-269 | a GET of a payload row with no serve path and no redirect query is answered by the decoy: status 200, the payload as string, its size as length, only Connection and Content-type set |
| Dispatch.DecoyWritten | src/connection.c:296-315 | such a record is written: the header fits, starts with "HTTP/1.0 200 OK" and holds the Content-type and Content-length lines |
| Dispatch.PayloadRequestGetsDecoy | src/connection.c:380-455 | end to end, such a GET is answered 200 OK with the row's Content-type, the payload size as Content-length and the payload as body |
| Dispatch.GifNameSelectsGifRow | src/mime.h:156 | the name "/x.gif" selects the gif row: image/gif with the 42-byte image |
| Dispatch.WrittenHeader | src/connection.c:312-315 | a written header for a closed 1.0 record with a table status starts with its status line and carries `Connection: close` |
| Dispatch.WriteConnection | src/connection.c:293-315 | the method sends the reply that Write specifies |
| Dispatch.ConnectionNew | src/connection.c:353-455 | the method sends the reply that Respond specifies, the 8 bytes of `content_noSSL` for a read starting with 0x16 |
| Dispatch.ContentLengthOverruns | src/connection.c:298-303 | as written, a length of 10000000 or more needs more than the 8 bytes of content_length |
| Dispatch.ContentLengthFitsTwelve | src/connection.c:298-303 | corrected: any 32-bit length, with sign and NUL, fits in 12 bytes |
| Dispatch.DecimalShort | src/connection.c:303 | a number below 10^k has at most k digits |
| Dispatch.DecimalLong | src/connection.c:303 | a number of at least 10^k has more than k digits |
| Config.Mask | src/config.h:6-11 | the option bits fit in four bits |
| Config.DefaultSocket | src/config.c:7-14 | a fresh socket has DO_204 and DO_REDIRECT and no address, port, serve path or cert path |
| Config.Finalised | src/config.c:154-175 | a finalised socket gets the address, keeps its port and paths, and keeps DO_SSL only with a cert path |
| Config.Value | src/config.c:97-152 | a value flag goes on iff it is one of -k, -p, -P, -u, -C, or -S with a value ending in `/`; otherwise it rejects, or is undefined for an empty -S value; it never touches the socket list or the address, and -S stores its value |
| Config.Finish | src/config.c:183-193 | the configuration always ends with a socket: the listed ones, or the pending one with port 8000 by default |
| Config.Run | src/config.c:61-194 | a successful parse always yields at least one socket |
| Config.RunKeepsSockets | src/config.c:154-175 | the parse only adds sockets at the front: the sockets it started with end the list |
| Config.ParseArgs | src/config.c:61-194 | a successful parse yields at least one socket; with no arguments the only socket is the default one on port 8000 |
| Config.RunSwitch | src/config.c:75-92 | a switch flag updates the settings and socket and moves to the next argument |
| Config.RunValue | src/config.c:97-152 | a value flag consumes its value or stops the parse |
| Config.RunAddress | src/config.c:154-175 | an address prepends the finalised socket and starts a fresh one |
| Config.SwitchEffects | src/config.c:75-92 | `-2` clears DO_204, `-c` sets DO_CLOSE, `-R` clears DO_REDIRECT, and no switch touches another bit |
| Config.PortFlags | src/config.c:102-114 | `-k` and `-p` both set the port; `-k` sets DO_SSL and `-p` clears it |
| Config.MissingValueRejects | src/config.c:150-152 | a value flag at the end of argv is rejected |
| Config.ServePathNeedsSlash | src/config.c:128-136 | a `-S` value not ending in `/` is rejected |
| Config.AddressNeedsPort | src/config.c:161-163 | an address before any port is rejected |
| Config.LaterValueWins | src/config.c:102-142 | repeating a storing flag keeps only the later value |
| Config.OptionsOnlyFinish | src/config.c:183-193 | without address arguments the parse succeeds with one socket that has a port |
| Config.Listen | src/config.c:154-175 | the argv of listeners is three arguments per listener |
| Config.ListenRun | src/config.c:154-175 | parsing listeners stacks them in front of the existing sockets |
| Config.StackedReversed | src/config.c:169-170 | the stacked list is the listeners in reverse order |
| Config.ListenersReversed | src/config.c:61-194 | parsing `-p port addr` pairs yields one socket per pair, in reverse argument order, without DO_SSL |
| Config.Configuration.constructor | src/config.c:43-59 | a new configuration has no sockets and default settings |
| Config.Configuration.Parse | src/config.c:61-194 | the argv loop leaves the state and return code that the parse function specifies |
| Config.Configuration.ApplySwitch | src/config.c:75-92 | one switch updates the state and socket as specified |
| Config.Configuration.ApplyValue | src/config.c:97-152 | one value flag updates the state, or reports the error, as specified |
| Tls.LoadCert | src/ssl.c:10-24 | loading succeeds iff the loadcert oracle accepts the file, which is then bound |
| Tls.UnderscoreFrom | src/ssl.c:64-66 | the walk stops at the first `_` at or after i, or at the end |
| Tls.WildcardName | src/ssl.c:63-67 | the wildcard name starts with `+` and is a suffix of the name otherwise |
| Tls.WildcardOfFirstLabel | src/ssl.c:63-67 | the first label is replaced by `+`, keeping the first `_` and all after it |
| Tls.WildcardExample | src/ssl.c:63-67 | `www_example_com` becomes `+_example_com` |
| Tls.ServerName | src/ssl.c:26-78 | a bad name gives a fatal alert; a loaded certificate is a regular, loadable file; fatal otherwise only from loadcert on a candidate |
| Tls.DefinedIffFits | src/ssl.c:45-55 | the callback is defined exactly for a present name whose first candidate fits the path buffer |
| Tls.CertCandidate | src/ssl.c:55-73 | the candidate is the cert path joined with the sanitised name, or with its wildcard name when the dot count exceeds 1 |
| Tls.ExactBeforeWildcard | src/ssl.c:55-73 | an existing exact file is loaded; the wildcard is loaded only when the exact file is missing and the wildcard exists |
| Tls.NoCandidateContinues | src/ssl.c:37 | with no regular file the callback returns OK and binds nothing |
| Tls.ServernameCallback | src/ssl.c:26-78 | the callback computes the specified routing outcome and loaded file |
| Tls.SanitizedCopy | src/ssl.c:45-46 | the copy carries the sanitiser's result and text, NUL-terminated |
| Tls.FirstCandidate | src/ssl.c:55 | the first candidate is the cert path joined with the name |
| Tls.WildcardCandidate | src/ssl.c:63-68 | the second candidate is the cert path joined with the wildcard name, if it fits the buffer |
| Tls.Wildcard | src/ssl.c:63-67 | the character walk writes `+` and leaves the wildcard name from the returned position |
| Tls.Chunks | src/ssl.c:93-107 | every write asks for between 1 byte and 1 MiB; no write when nothing remains |
| Tls.Sent | src/ssl.c:93-107 | the total written never exceeds the file size |
| Tls.SentAllIffFullWrites | src/ssl.c:93-107 | the whole file is sent iff every write is full; then there are ceil(size / 1 MiB) writes |
| Tls.StopsAtShortWrite | src/ssl.c:100-102 | every write but the last was full, and a short total means the last write was short |
| Tls.ChunkStep | src/ssl.c:95-105 | one step writes min(remaining, 1 MiB) and stops on a short write |
| Tls.SslSendfile | src/ssl.c:80-112 | the loop makes exactly the specified writes, sends the specified total and returns 0; nothing when the map fails |
| Supervisor.Running | src/fork.c:131-137 | the pids signalled are positive and no more than the entries |
| Supervisor.RunningIsExactlyPositive | src/fork.c:131-137 | a pid is signalled iff it is positive and held by an entry |
| Supervisor.Spawned | src/fork.c:86-110 | entries with a pid are untouched; a pid-0 entry gets a pid iff its fork succeeded |
| Supervisor.Restarted | src/fork.c:123-129 | exactly the entries with the reaped pid are reset to 0; the others are unchanged |
| Supervisor.Killed | src/fork.c:131-137 | after the kill loop no entry runs, and entries without a positive pid are unchanged |
| Supervisor.Round | src/fork.c:84-141 | one round keeps the tasks, terminates iff the wait failed or a child exited with EXIT_FAILURE, and then leaves nothing running |
| Supervisor.RoundKeepsPidsValid | src/fork.c:84-141 | rounds keep every pid non-negative |
| Supervisor.ExitedChildIsRestarted | src/fork.c:123-129 | a child that exits normally is reset and respawned in the next round; the others are unchanged |
| Supervisor.FailedWaitStopsAll | src/fork.c:116-139 | a failed wait terminates and signals every running child |
| Supervisor.SignalledWereRunning | src/fork.c:131-137 | only pids of running children are signalled |
| Supervisor.ReapedChildSignalledAsWritten | src/fork.c:120-137 | as written, a child reaped after exiting with EXIT_FAILURE is still sent SIGTERM |
| Supervisor.CorrectedRound | src/fork.c:84-141 | the corrected round has the same tasks and termination rule, and leaves nothing running on termination |
| Supervisor.CorrectedRoundSparesReaped | src/fork.c:120-137 | the corrected round never signals the reaped pid, and agrees with the source in every other case |
| Supervisor.Rounds | src/fork.c:84-141 | the rounds keep the tasks and valid pids, end early only with the flag set, and then leave nothing running |
| Supervisor.RoundsStep | src/fork.c:84-141 | a round that sets the flag is the last; otherwise the rounds go on from its entries |
| Supervisor.RoundsStopAtFirstShutdown | src/fork.c:116-139 | the loop ends in the round of the first failed wait or EXIT_FAILURE exit; without one the whole script runs and nothing is signalled |
| Supervisor.ProcessTable.constructor | src/fork.c:14-18 | the registry starts empty and not terminated |
| Supervisor.ProcessTable.Init | src/fork.c:14-18 | init empties the registry and returns 0 |
| Supervisor.ProcessTable.Add | src/fork.c:35-51 | add prepends a pid-0 entry for the task, or returns -1 with no change when allocation fails |
| Supervisor.ProcessTable.Quit | src/fork.c:20-33 | quit signals the running children and empties the registry |
| Supervisor.ProcessTable.Handler | src/fork.c:53-59 | only SIGTERM sets the terminated flag; the registry is unchanged |
| Supervisor.ProcessTable.SpawnAll | src/fork.c:86-110 | the spawn loop leaves the spawned entries |
| Supervisor.ProcessTable.Reap | src/fork.c:116-129 | reaping sets terminated on a failed wait or EXIT_FAILURE and then leaves every entry as it was, also the reaped child's; otherwise it resets the reaped entries |
| Supervisor.ProcessTable.KillAll | src/fork.c:131-137 | the kill loop signals the running children and clears them |
| Supervisor.ProcessTable.RunRound | src/fork.c:84-141 | one pass of the loop leaves the state and signals of the round as written |
| Supervisor.ProcessTable.Run | src/fork.c:78-144 | the loop leaves the state, the signals and the round count of the specified rounds; it returns 0 iff a round ended with the flag set |

## Left out

- I/O: `connection_read`, `send`, `sendfile`, `SSL_write` in
  `connection_write`, the receive timeout and TCP_CORK. Received bytes are
  a parameter and the reply is a value.
- The POST drain loop (src/connection.c:407-417): it only reads and
  discards socket data.
- `ts_ssl_session_init`, `ts_ssl_session_close` and SSL context handling:
  foreign library calls. `stat`, loadcert and `SSL_write` are oracles.
- Tls.ServerName: a missing server name goes to `strdup(NULL)`, which has
  no defined behaviour, so the result is left undefined.
- Dispatch.HandleFile: `open()` is taken to succeed. The source treats a
  descriptor of -1 as success.
- malloc, free and strdup are replaced by values. The `-S` double free and
  the early-return leak in config.c are not modelled; `ts_configuration_free`
  is not modelled.
- Supervisor.ProcessTable.Run: the `for(;;)` loop is modelled over a finite
  script of fork and wait results; it does not model a loop that never ends.
- The child branch of `fork()` (signal setup, running the task, `exit`) and
  signal delivery are out of scope. The handler is a method called with a
  signal number. A SIGSEGV reaching the handler does nothing, which the
  model keeps.
- Concurrency: the processes are modelled one at a time; there are no
  threads.
- `tinysrv.c` (binding, the accept loop, daemonising, the PID file,
  setuid) is not part of this model. Nor are logging, syslog, DEBUG_PRINT
  and build macros.
- Most undefined-behaviour edges are preconditions or `Undefined` results,
  not replicated. These are:
  - `isprint` on bytes of 0x80 and above (`Ascii` precondition);
  - header loops over a block without a terminating blank line;
  - a header line shorter than its key;
  - an empty `-S` value;
  - a certificate path too long for the path buffer;
  - a Connection scan that never returns (`ConnLineUndefined`,
    `ParseUndefined`).
  The buffer overruns listed under Findings are handled differently: the
  model takes the corrected behaviour there, as the lines below say.
- Http.ConnectionLine: a scan that would loop for ever is modelled as the
  result `ConnLineUndefined`, not as divergence.
- Dispatch.TargetOf: a path of exactly 200 bytes is declined (no target),
  where the source writes its terminating NUL one past the buffer.
- Http.Fill: returns -1 when the header does not fit the buffer, where the
  source writes past the end and returns the length.
- Dispatch.Write: answers `Silent` when Fill reports -1, where the source
  would send the overrun buffer.
- Dispatch.Announced: renders the whole decimal of the length, where the
  source's 8-byte `content_length` overruns at 10000000 and above.
- Dispatch.WrittenLayout: states that the Content-length line is present
  when the length is above -1, not that it is absent otherwise.
- Supervisor.ProcessTable.Run: returns -1 when the finite script runs out
  before a round sets the flag; the source would go on looping.
- Dispatch.ConnectionNew: requires that `Respond` is defined, that is, the
  received buffer is free of the undefined edges above.
- Http.ParseRequestLine, Http.HttpHeaderParse, Http.GetValue,
  Http.FindConnectionLine and Http.ScanForKey require the same, for the
  same reason.
- Dispatch.HandleFile, Dispatch.HandleRedirect, Dispatch.HandleJsClose,
  Dispatch.Serve: the connection record is a value threaded through the
  rules (it is a local of `connection_new` with no aliasing). The
  field-by-field updates in place and the strcat into the path buffer are
  not modelled step by step.
- Tls.ServernameCallback: requires that the first candidate fits the
  `MAX_PATH_LENGTH` buffer. The source ignores the concatenation's result
  and would stat an unwritten buffer.

## Findings

| source | as written | input that shows it | evidently intended | confidence | as-written member | corrected member |
|---|---|---|---|---|---|---|
| src/utils.c:57-58 | `strnstr` scans only positions `i < len - needle_len` | `"abc"`, needle `"c"`, len 3: not found | every position where the needle fits, `i <= len - needle_len` | not executed | Utils.StrnstrMissesLastPosition | Utils.Strnstr |
| src/connection.c:66-92 | `hostname_length--` makes the counted path one byte short | a host giving a path of exactly 200 bytes passes the bound, and its NUL is written to `file[200]`, one past the end | count the real host length | not executed | Dispatch.HostLengthOffByOne | Dispatch.TargetOf |
| src/http.c:70-95 | a token starting with k, c or u that does not match leaves `str` in place | `Connection: cookie` never ends the scan | skip or stop at an unmatched token | not executed | Http.ConnectionScanHangsOnCookie | Http.ParseConnection |
| src/http.c:259-287, src/connection.c:312-315 | fill never compares its output with buflen, yet the caller checks for a negative result | a redirect Location of 8173 characters writes past the 8192-byte buffer | return -1 when the header does not fit | not executed | Http.FillOverrunsOnLongLocation | Http.Fill |
| src/connection.h:18-24, src/connection.c:397-398 | `sizeof - 1` keeps the byte the literal's comment calls the string terminator | any first byte 0x16: 8 bytes are sent for a 7-byte record | send the 7-byte alert record | not executed | Dispatch.NoSslTrailingByte | Dispatch.HandshakeGetsOneAlertRecord |
| src/connection.c:298-303 | `content_length[8]` holds at most 7 digits | a file of 10000000 bytes overflows it | a buffer for any 32-bit int (12 bytes) | not executed | Dispatch.ContentLengthOverruns | Dispatch.ContentLengthFitsTwelve |
| src/fork.c:120-137 | after a child exits with EXIT_FAILURE its entry still holds its pid, so the kill loop signals it | one running child, pid p, reaped with EXIT_FAILURE: SIGTERM is sent to p | signal only children still running | not executed | Supervisor.ReapedChildSignalledAsWritten | Supervisor.CorrectedRoundSparesReaped |
