/**
 * The media-type table of src/mime.h and its lookup, get_mime, in
 * src/connection.c.  Image and Flash entries carry the decoy payload served
 * for a blocked resource; the byte strings are those of the C arrays, whose
 * length (`sizeof - 1`) is the response size.
 */
module Mime {
  import opened CStr

  /** The response kinds of src/project.h (the table's `response_type`). */
  datatype ResponseKind =
    | SendCss | SendFile | SendGif | SendHtml | SendIco | SendJpg | SendJs
    | SendPng | SendSwf | SendTxt | SendWebp | SendNoExt | SendUnkExt

  /**
   * One row of the table: the extension compared (its length is the number
   * of characters compared), the media type, the kind and the decoy payload.
   */
  datatype MimeEntry = MimeEntry(ext: Option<string>, typestr: string, kind: ResponseKind, response: Option<seq<byte>>)
  {
    /** response_size: the payload's length, 0 without one. */
    function ResponseSize(): nat {
      if response.Some? then |response.value| else 0
    }
  }

  /** The decoy GIF: a 1x1 transparent image (42 bytes). */
  const GifPayload: seq<byte> := [
      71, 73, 70, 56, 57, 97, 1, 0, 1, 0, 128, 0, 0, 1, 1, 1,
      0, 0, 0, 33, 249, 4, 1, 0, 0, 0, 0, 44, 0, 0, 0, 0,
      1, 0, 1, 0, 0, 2, 1, 68, 0, 59
    ]

  /** The decoy PNG: a 1x1 transparent image (67 bytes). */
  const PngPayload: seq<byte> := [
      137, 80, 78, 71, 13, 10, 26, 10, 0, 0, 0, 13, 73, 72, 68, 82,
      0, 0, 0, 1, 0, 0, 0, 1, 8, 6, 0, 0, 0, 31, 21, 196,
      137, 0, 0, 0, 10, 73, 68, 65, 84, 120, 156, 99, 0, 1, 0, 0,
      5, 0, 1, 13, 10, 45, 180, 0, 0, 0, 0, 73, 69, 78, 68, 174,
      66, 96, 130
    ]

  /** The decoy JPEG: a 1x1 image (159 bytes). */
  const JpegPayload: seq<byte> := [
      255, 216, 255, 224, 0, 16, 74, 70, 73, 70, 0, 1, 1, 1, 0, 72,
      0, 72, 0, 0, 255, 219, 0, 67, 0, 255, 255, 255, 255, 255, 255, 255,
      255, 255, 255, 255, 255, 255, 255, 255, 255, 255, 255, 255, 255, 255, 255, 255,
      255, 255, 255, 255, 255, 255, 255, 255, 255, 255, 255, 255, 255, 255, 255, 255,
      255, 255, 255, 255, 255, 255, 255, 255, 255, 255, 255, 255, 255, 255, 255, 255,
      255, 255, 255, 255, 255, 255, 255, 255, 255, 255, 192, 0, 11, 8, 0, 1,
      0, 1, 1, 1, 17, 0, 255, 196, 0, 20, 0, 1, 0, 0, 0, 0,
      0, 0, 0, 0, 0, 0, 0, 0, 0, 0, 0, 3, 255, 196, 0, 20,
      16, 1, 0, 0, 0, 0, 0, 0, 0, 0, 0, 0, 0, 0, 0, 0,
      0, 0, 255, 218, 0, 8, 1, 1, 0, 0, 63, 0, 55, 255, 217
    ]

  /** The decoy WebP: a 1x1 image (42 bytes). */
  const WebpPayload: seq<byte> := [
      82, 73, 70, 70, 34, 0, 0, 0, 87, 69, 66, 80, 86, 80, 56, 32,
      22, 0, 0, 0, 48, 1, 0, 157, 1, 42, 1, 0, 1, 0, 14, 192,
      254, 37, 164, 0, 3, 112, 0, 0, 0, 0
    ]

  /** The decoy Flash: an empty one-frame movie (25 bytes). */
  const SwfPayload: seq<byte> := [
      70, 87, 83, 5, 25, 0, 0, 0, 48, 10, 0, 160, 0, 1, 1, 0,
      67, 2, 0, 0, 0, 64, 0, 0, 0
    ]

  /** The decoy icon: a 1x1 image (70 bytes). */
  const IcoPayload: seq<byte> := [
      0, 0, 1, 0, 1, 0, 1, 1, 0, 0, 1, 0, 32, 0, 48, 0,
      0, 0, 22, 0, 0, 0, 40, 0, 0, 0, 1, 0, 0, 0, 2, 0,
      0, 0, 1, 0, 32, 0, 0, 0, 0, 0, 0, 0, 0, 0, 0, 0,
      0, 0, 0, 0, 0, 0, 0, 0, 0, 0, 0, 0, 0, 0, 0, 0,
      0, 0, 128, 248, 156, 65
    ]

  /** default_mimes, without its sentinel row. */
  const Mimes: seq<MimeEntry> := [
    MimeEntry(Some("gif"), "image/gif", SendGif, Some(GifPayload)),
    MimeEntry(Some("png"), "image/png", SendPng, Some(PngPayload)),
    MimeEntry(Some("jp"), "image/jpeg", SendJpg, Some(JpegPayload)),
    MimeEntry(Some("webp"), "image/webp", SendWebp, Some(WebpPayload)),
    MimeEntry(Some("swf"), "application/x-shockwave-flash", SendSwf, Some(SwfPayload)),
    MimeEntry(Some("ico"), "image/x-icon", SendIco, Some(IcoPayload)),
    MimeEntry(Some("htm"), "text/html", SendHtml, None),
    MimeEntry(Some("js"), "application/javascript", SendJs, None),
    MimeEntry(Some("css"), "text/css", SendCss, None),
    MimeEntry(Some("txt"), "text/plain", SendTxt, None)
  ]

  /** The sentinel row: an extension no entry matches. */
  const UnknownMime := MimeEntry(None, "text/html", SendUnkExt, None)

  /** no_mime: a file name without an extension. */
  const NoMime := MimeEntry(None, "text/plain", SendNoExt, None)

  /** Every listed row has an extension. */
  predicate WellFormed(table: seq<MimeEntry>) {
    forall i :: 0 <= i < |table| ==> table[i].ext.Some?
  }

  /** strncasecmp(e, row.ext, row.ext_len) == 0: e starts with the row's extension, up to case. */
  predicate ExtMatches(e: string, m: MimeEntry)
    requires m.ext.Some?
  {
    NCaseEq(e, m.ext.value, |m.ext.value|)
  }

  /** The first row of the table at or after i whose extension starts e, or the sentinel. */
  function FirstMime(table: seq<MimeEntry>, e: string, i: nat): (r: MimeEntry)
    requires WellFormed(table) && i <= |table|
    decreases |table| - i
  {
    if i == |table| then UnknownMime
    else if ExtMatches(e, table[i]) then table[i]
    else FirstMime(table, e, i + 1)
  }

  /**
   * What get_mime returns for the suffix strrchr found: no_mime unless it
   * starts with a dot; otherwise the first row whose extension starts the
   * rest (so "jpeg" is image/jpeg and "json" application/javascript), or the
   * sentinel.
   */
  function MimeFor(ext: Option<string>): MimeEntry {
    if ext.Some? && |ext.value| > 0 && ext.value[0] == '.' then FirstMime(Mimes, ext.value[1..], 0)
    else NoMime
  }

  /** get_mime: the linear search over default_mimes. */
  method GetMime(ext: Option<string>) returns (m: MimeEntry)
    ensures m == MimeFor(ext)
  {
    if ext.Some? && |ext.value| > 0 && ext.value[0] == '.' {
      var e := ext.value[1..];
      var table := Mimes;
      var i := 0;
      while i < |table|
        invariant 0 <= i <= |table| && WellFormed(table)
        invariant FirstMime(table, e, i) == FirstMime(table, e, 0)
      {
        var row := table[i];
        if NCaseEq(e, row.ext.value, |row.ext.value|) {
          return row;
        }
        i := i + 1;
      }
      return UnknownMime;
    }
    return NoMime;
  }

  lemma {:induction false} FirstMimeIsFirst(table: seq<MimeEntry>, e: string, i: nat)
    requires WellFormed(table) && i <= |table|
    ensures var r := FirstMime(table, e, i);
      (r == UnknownMime && forall k :: i <= k < |table| ==> !ExtMatches(e, table[k]))
      || (exists k :: i <= k < |table| && r == table[k] && ExtMatches(e, table[k])
            && forall k' :: i <= k' < k ==> !ExtMatches(e, table[k']))
    decreases |table| - i
  {
    if i < |table| && !ExtMatches(e, table[i]) {
      FirstMimeIsFirst(table, e, i + 1);
    }
  }

  /**
   * get_mime's result for an extension e: the row of the first entry whose
   * extension starts e up to case, or the sentinel exactly when no entry
   * does; without a leading dot, no_mime.
   */
  lemma MimeForIsFirstMatch(ext: Option<string>)
    ensures !(ext.Some? && |ext.value| > 0 && ext.value[0] == '.') ==> MimeFor(ext) == NoMime
    ensures ext.Some? && |ext.value| > 0 && ext.value[0] == '.' ==>
      var e := ext.value[1..];
      (MimeFor(ext) == UnknownMime <==> forall k :: 0 <= k < |Mimes| ==> !ExtMatches(e, Mimes[k]))
      && (MimeFor(ext) != UnknownMime ==>
            exists k :: 0 <= k < |Mimes| && MimeFor(ext) == Mimes[k] && ExtMatches(e, Mimes[k])
              && forall k' :: 0 <= k' < k ==> !ExtMatches(e, Mimes[k']))
  {
    if ext.Some? && |ext.value| > 0 && ext.value[0] == '.' {
      var table := Mimes;
      assert WellFormed(table);
      FirstMimeIsFirst(table, ext.value[1..], 0);
      forall k | 0 <= k < |table|
        ensures table[k] != UnknownMime
      {
      }
    }
  }

  /** Only the six image and Flash rows carry a payload; no_mime and the sentinel carry none. */
  lemma PayloadRows()
    ensures forall k :: 0 <= k < |Mimes| ==> (Mimes[k].response.Some? <==> k < 6)
    ensures NoMime.ResponseSize() == 0 && UnknownMime.ResponseSize() == 0
    ensures |GifPayload| == 42 && |PngPayload| == 67 && |JpegPayload| == 159
    ensures |WebpPayload| == 42 && |SwfPayload| == 25 && |IcoPayload| == 70
    ensures WebpPayload[4] as int == |WebpPayload| - 8 && SwfPayload[4] as int == |SwfPayload|
  {
  }
}
