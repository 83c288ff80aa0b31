/** MIME header helpers: the extension table, its inverse, the set of
    accepted subtypes, the `Content-Type` parser and the handler lookup by
    file type. */
module Header {
  import opened Base
  import opened Text

  // ---------------------------------------------------------------------
  // extension_to_header and types_supported

  // The table is written as the union of its consecutive groups of at
  // most twenty entries, in their original order. No extension occurs
  // twice, so the union is the dictionary literal itself; the groups keep
  // each proof about the table small.

  const ApplicationTypes1: map<string, string> :=
    map[
      ".js" := "application/javascript",
      ".mjs" := "application/javascript",
      ".json" := "application/json",
      ".webmanifest" := "application/manifest+json",
      ".doc" := "application/msword",
      ".dot" := "application/msword",
      ".wiz" := "application/msword",
      ".bin" := "application/octet-stream",
      ".a" := "application/octet-stream",
      ".dll" := "application/octet-stream",
      ".exe" := "application/octet-stream",
      ".o" := "application/octet-stream",
      ".obj" := "application/octet-stream",
      ".so" := "application/octet-stream",
      ".oda" := "application/oda",
      ".pdf" := "application/pdf",
      ".p7c" := "application/pkcs7-mime",
      ".ps" := "application/postscript"
    ]

  const ApplicationTypes2: map<string, string> :=
    map[
      ".ai" := "application/postscript",
      ".eps" := "application/postscript",
      ".m3u" := "application/vnd.apple.mpegurl",
      ".m3u8" := "application/vnd.apple.mpegurl",
      ".xls" := "application/vnd.ms-excel",
      ".xlb" := "application/vnd.ms-excel",
      ".ppt" := "application/vnd.ms-powerpoint",
      ".pot" := "application/vnd.ms-powerpoint",
      ".ppa" := "application/vnd.ms-powerpoint",
      ".pps" := "application/vnd.ms-powerpoint",
      ".pwz" := "application/vnd.ms-powerpoint",
      ".wasm" := "application/wasm",
      ".bcpio" := "application/x-bcpio",
      ".cpio" := "application/x-cpio",
      ".csh" := "application/x-csh",
      ".dvi" := "application/x-dvi",
      ".gtar" := "application/x-gtar",
      ".hdf" := "application/x-hdf"
    ]

  const ApplicationTypes3: map<string, string> :=
    map[
      ".h5" := "application/x-hdf5",
      ".latex" := "application/x-latex",
      ".mif" := "application/x-mif",
      ".cdf" := "application/x-netcdf",
      ".nc" := "application/x-netcdf",
      ".p12" := "application/x-pkcs12",
      ".pfx" := "application/x-pkcs12",
      ".ram" := "application/x-pn-realaudio",
      ".pyc" := "application/x-python-code",
      ".pyo" := "application/x-python-code",
      ".sh" := "application/x-sh",
      ".shar" := "application/x-shar",
      ".swf" := "application/x-shockwave-flash",
      ".sv4cpio" := "application/x-sv4cpio",
      ".sv4crc" := "application/x-sv4crc",
      ".tar" := "application/x-tar",
      ".tcl" := "application/x-tcl",
      ".tex" := "application/x-tex"
    ]

  const ApplicationTypes4: map<string, string> :=
    map[
      ".texi" := "application/x-texinfo",
      ".texinfo" := "application/x-texinfo",
      ".roff" := "application/x-troff",
      ".t" := "application/x-troff",
      ".tr" := "application/x-troff",
      ".man" := "application/x-troff-man",
      ".me" := "application/x-troff-me",
      ".ms" := "application/x-troff-ms",
      ".ustar" := "application/x-ustar",
      ".src" := "application/x-wais-source",
      ".xsl" := "application/xml",
      ".rdf" := "application/xml",
      ".wsdl" := "application/xml",
      ".xpdl" := "application/xml",
      ".zip" := "application/zip"
    ]

  const AudioTypes: map<string, string> :=
    map[
      ".au" := "audio/basic",
      ".snd" := "audio/basic",
      ".mp3" := "audio/mpeg",
      ".mp2" := "audio/mpeg",
      ".aif" := "audio/x-aiff",
      ".aifc" := "audio/x-aiff",
      ".aiff" := "audio/x-aiff",
      ".ra" := "audio/x-pn-realaudio",
      ".wav" := "audio/x-wav"
    ]

  const ImageTypes: map<string, string> :=
    map[
      ".gif" := "image/gif",
      ".ief" := "image/ief",
      ".jpg" := "image/jpeg",
      ".jpe" := "image/jpeg",
      ".jpeg" := "image/jpeg",
      ".png" := "image/png",
      ".svg" := "image/svg+xml",
      ".tiff" := "image/tiff",
      ".tif" := "image/tiff",
      ".ico" := "image/vnd.microsoft.icon",
      ".ras" := "image/x-cmu-raster",
      ".bmp" := "image/x-ms-bmp",
      ".pnm" := "image/x-portable-anymap",
      ".pbm" := "image/x-portable-bitmap",
      ".pgm" := "image/x-portable-graymap",
      ".ppm" := "image/x-portable-pixmap",
      ".rgb" := "image/x-rgb",
      ".xbm" := "image/x-xbitmap",
      ".xpm" := "image/x-xpixmap",
      ".xwd" := "image/x-xwindowdump"
    ]

  const MessageTypes: map<string, string> :=
    map[
      ".eml" := "message/rfc822",
      ".mht" := "message/rfc822",
      ".mhtml" := "message/rfc822",
      ".nws" := "message/rfc822"
    ]

  const TextTypes: map<string, string> :=
    map[
      ".css" := "text/css",
      ".csv" := "text/csv",
      ".html" := "text/html",
      ".htm" := "text/html",
      ".txt" := "text/plain",
      ".bat" := "text/plain",
      ".c" := "text/plain",
      ".h" := "text/plain",
      ".ksh" := "text/plain",
      ".pl" := "text/plain",
      ".rtx" := "text/richtext",
      ".tsv" := "text/tab-separated-values",
      ".py" := "text/x-python",
      ".etx" := "text/x-setext",
      ".sgm" := "text/x-sgml",
      ".sgml" := "text/x-sgml",
      ".vcf" := "text/x-vcard",
      ".xml" := "text/xml"
    ]

  const VideoTypes: map<string, string> :=
    map[
      ".mp4" := "video/mp4",
      ".mpeg" := "video/mpeg",
      ".m1v" := "video/mpeg",
      ".mpa" := "video/mpeg",
      ".mpe" := "video/mpeg",
      ".mpg" := "video/mpeg",
      ".mov" := "video/quicktime",
      ".qt" := "video/quicktime",
      ".webm" := "video/webm",
      ".avi" := "video/x-msvideo",
      ".movie" := "video/x-sgi-movie"
    ]

  /** `extension_to_header`: file extension to media type. */
  const ExtensionToHeader: map<string, string> :=
    ApplicationTypes1 + ApplicationTypes2 + ApplicationTypes3 + ApplicationTypes4 + AudioTypes + ImageTypes + MessageTypes + TextTypes + VideoTypes

  /** `types_supported`. */
  const TypesSupported: set<string> := {".json"}

  // ---------------------------------------------------------------------
  // header_to_extension

  /** Media type to the set of extensions that map to it. */
  function HeaderToExtension(table: map<string, string>): map<string, set<string>>
  {
    map m | m in table.Values :: set e | e in table && table[e] == m
  }

  /** The module-level loop that builds `header_to_extension`: one key at
      a time, a new media type gets a singleton set and a known one gets
      the extension added to its set. The keys are taken in an arbitrary
      order; the result does not depend on it. */
  method BuildHeaderToExtension(table: map<string, string>) returns (inv: map<string, set<string>>)
    ensures inv == HeaderToExtension(table)
  {
    inv := map[];
    var todo := table.Keys;
    ghost var done: set<string> := {};
    while todo != {}
      invariant todo + done == table.Keys && todo !! done
      invariant forall m :: m in inv <==> exists e :: e in done && table[e] == m
      invariant forall m :: m in inv ==> inv[m] == set e | e in done && table[e] == m
      decreases todo
    {
      var ext :| ext in todo;
      var media := table[ext];
      if media !in inv {
        inv := inv[media := {ext}];
      } else {
        inv := inv[media := inv[media] + {ext}];
      }
      todo := todo - {ext};
      done := done + {ext};
    }
    assert done == table.Keys;
  }

  /** `header_to_extension` is the exact inverse of the table: its keys are
      the table's media types, `e` is in the set for `m` iff the table maps
      `e` to `m`, and no set is empty. */
  lemma HeaderToExtensionInverse(table: map<string, string>, m: string, e: string)
    ensures m in HeaderToExtension(table) <==> exists x :: x in table && table[x] == m
    ensures m in HeaderToExtension(table) ==>
              HeaderToExtension(table)[m] != {} &&
              (e in HeaderToExtension(table)[m] <==> e in table && table[e] == m)
  {
    if m in HeaderToExtension(table) {
      var x :| x in table && table[x] == m;
      assert x in HeaderToExtension(table)[m];
    }
  }

  // ---------------------------------------------------------------------
  // _accept

  /** Every media type of the table has a `/`. */
  predicate SlashedValues(table: map<string, string>)
  {
    forall e :: e in table ==> '/' in table[e]
  }

  lemma SlashedUnion(a: map<string, string>, b: map<string, string>)
    requires SlashedValues(a) && SlashedValues(b)
    ensures SlashedValues(a + b)
  {
  }

  lemma ApplicationTypes1Slashed()
    ensures SlashedValues(ApplicationTypes1)
  {
  }

  lemma ApplicationTypes2Slashed()
    ensures SlashedValues(ApplicationTypes2)
  {
  }

  lemma ApplicationTypes3Slashed()
    ensures SlashedValues(ApplicationTypes3)
  {
  }

  lemma ApplicationTypes4Slashed()
    ensures SlashedValues(ApplicationTypes4)
  {
  }

  lemma AudioTypesSlashed()
    ensures SlashedValues(AudioTypes)
  {
  }

  lemma ImageTypesSlashed()
    ensures SlashedValues(ImageTypes)
  {
  }

  lemma MessageTypesSlashed()
    ensures SlashedValues(MessageTypes)
  {
  }

  lemma TextTypesSlashed()
    ensures SlashedValues(TextTypes)
  {
  }

  lemma VideoTypesSlashed()
    ensures SlashedValues(VideoTypes)
  {
  }

  /** Every media type of `extension_to_header` has a subtype. */
  lemma TableSlashed()
    ensures SlashedValues(ExtensionToHeader)
  {
    ApplicationTypes1Slashed();
    ApplicationTypes2Slashed();
    ApplicationTypes3Slashed();
    ApplicationTypes4Slashed();
    AudioTypesSlashed();
    ImageTypesSlashed();
    MessageTypesSlashed();
    TextTypesSlashed();
    VideoTypesSlashed();
    SlashedUnion(ApplicationTypes1, ApplicationTypes2);
    SlashedUnion(ApplicationTypes1 + ApplicationTypes2, ApplicationTypes3);
    SlashedUnion(ApplicationTypes1 + ApplicationTypes2 + ApplicationTypes3, ApplicationTypes4);
    SlashedUnion(ApplicationTypes1 + ApplicationTypes2 + ApplicationTypes3 + ApplicationTypes4, AudioTypes);
    SlashedUnion(ApplicationTypes1 + ApplicationTypes2 + ApplicationTypes3 + ApplicationTypes4 + AudioTypes, ImageTypes);
    SlashedUnion(ApplicationTypes1 + ApplicationTypes2 + ApplicationTypes3 + ApplicationTypes4 + AudioTypes + ImageTypes, MessageTypes);
    SlashedUnion(ApplicationTypes1 + ApplicationTypes2 + ApplicationTypes3 + ApplicationTypes4 + AudioTypes + ImageTypes + MessageTypes, TextTypes);
    SlashedUnion(ApplicationTypes1 + ApplicationTypes2 + ApplicationTypes3 + ApplicationTypes4 + AudioTypes + ImageTypes + MessageTypes + TextTypes, VideoTypes);
  }

  lemma {:induction false} CountPositive(s: string, c: char)
    requires c in s
    ensures Count(s, c) >= 1
    decreases |s|
  {
    if s[0] != c {
      assert c in s[1..];
      CountPositive(s[1..], c);
    }
  }

  /** `media.split("/")[1]`: the text after the first `/`, up to the next. */
  function Subtype(media: string): (s: string)
    requires '/' in media
    ensures '/' !in s
  {
    SplitLength(media, '/');
    CountPositive(media, '/');
    Split(media, '/')[1]
  }

  /** The subtype of `a/b` is the part of `b` before any further `/`. */
  lemma SubtypeOf(a: string, b: string)
    requires '/' !in a
    ensures '/' in a + "/" + b && Subtype(a + "/" + b) == Split(b, '/')[0]
  {
    assert a + "/" + b == a + ['/'] + b;
    assert (a + "/" + b)[|a|] == '/';
    SplitAround(a, b, '/');
    SplitNoSeparator(a, '/');
  }

  /** `_accept`: the subtypes of the table's media types. */
  function AcceptedSubtypes(table: map<string, string>): (acc: set<string>)
    requires SlashedValues(table)
    ensures forall s :: s in acc <==> exists e :: e in table && Subtype(table[e]) == s
  {
    set e | e in table :: Subtype(table[e])
  }

  /** `s` is the subtype of `media` read off its text: `media` is `a/s`,
      followed by nothing or by a further `/`, and neither `a` nor `s`
      holds a `/`. */
  ghost predicate SubtypeIs(media: string, s: string)
  {
    exists a, b {:trigger a + "/" + s + b} :: '/' !in a && '/' !in s && (b == [] || b[0] == '/') && media == a + "/" + s + b
  }

  /** The subtype `split` computes can be read off the text. */
  lemma SubtypeRead(media: string)
    requires '/' in media
    ensures SubtypeIs(media, Subtype(media))
  {
    var a := Split(media, '/')[0];
    SplitFirstPiece(media, '/');
    var rest := media[|a| + 1..];
    assert media == a + "/" + rest by {
      assert media == media[..|a|] + [media[|a|]] + rest;
    }
    SubtypeOf(a, rest);
    var s := Subtype(media);
    SplitFirstPiece(rest, '/');
    assert s == Split(rest, '/')[0];
    var b := rest[|s|..];
    assert rest == s + b;
    assert b == [] || b[0] == '/';
    assert '/' !in a && '/' !in s;
    SubtypeIsIntro(media, a, s, b);
  }

  lemma SubtypeIsIntro(media: string, a: string, s: string, b: string)
    requires '/' !in a && '/' !in s && (b == [] || b[0] == '/') && media == a + "/" + s + b
    ensures SubtypeIs(media, s)
  {
  }

  /** A subtype read off the text is the one `split` computes. */
  lemma SubtypeReadBack(media: string, s: string)
    requires SubtypeIs(media, s)
    ensures '/' in media && Subtype(media) == s
  {
    var a, b :| '/' !in a && '/' !in s && (b == [] || b[0] == '/') && media == a + "/" + s + b;
    assert media == a + "/" + (s + b);
    SubtypeOf(a, s + b);
    SplitFirstPieceOf(s, b, '/');
  }

  /** `media.split("/")[1]` is the subtype read off the text. */
  lemma SubtypeMeaning(media: string, s: string)
    requires '/' in media
    ensures SubtypeIs(media, s) <==> Subtype(media) == s
  {
    SubtypeRead(media);
    if SubtypeIs(media, s) {
      SubtypeReadBack(media, s);
    }
  }

  /** `_accept` holds exactly the subtypes read off the table's media
      types. */
  lemma AcceptedSubtypesMeaning(table: map<string, string>)
    requires SlashedValues(table)
    ensures forall s :: s in AcceptedSubtypes(table) <==> exists e :: e in table && SubtypeIs(table[e], s)
  {
    forall s
      ensures s in AcceptedSubtypes(table) <==> exists e :: e in table && SubtypeIs(table[e], s)
    {
      if s in AcceptedSubtypes(table) {
        var e :| e in table && Subtype(table[e]) == s;
        SubtypeMeaning(table[e], s);
      }
      if exists e :: e in table && SubtypeIs(table[e], s) {
        var e :| e in table && SubtypeIs(table[e], s);
        SubtypeMeaning(table[e], s);
      }
    }
  }

  /** The default accepted set of `parse_content_type`. */
  function Accept(): set<string>
  {
    TableSlashed();
    AcceptedSubtypes(ExtensionToHeader)
  }

  /** `_accept` holds exactly the subtypes read off the media types of
      `extension_to_header`. */
  lemma AcceptMeaning()
    ensures forall s :: s in Accept() <==> exists e :: e in ExtensionToHeader && SubtypeIs(ExtensionToHeader[e], s)
  {
    TableSlashed();
    AcceptedSubtypesMeaning(ExtensionToHeader);
  }

  lemma LookupLeft(a: map<string, string>, b: map<string, string>, k: string)
    requires k in a && k !in b
    ensures k in a + b && (a + b)[k] == a[k]
  {
  }

  lemma JsonInApplicationTypes1()
    ensures ".json" in ApplicationTypes1 && ApplicationTypes1[".json"] == "application/json"
  {
  }

  lemma JsonNotInApplicationTypes2()
    ensures ".json" !in ApplicationTypes2
  {
  }

  lemma JsonNotInApplicationTypes3()
    ensures ".json" !in ApplicationTypes3
  {
  }

  lemma JsonNotInApplicationTypes4()
    ensures ".json" !in ApplicationTypes4
  {
  }

  lemma JsonNotInAudioTypes()
    ensures ".json" !in AudioTypes
  {
  }

  lemma JsonNotInImageTypes()
    ensures ".json" !in ImageTypes
  {
  }

  lemma JsonNotInMessageTypes()
    ensures ".json" !in MessageTypes
  {
  }

  lemma JsonNotInTextTypes()
    ensures ".json" !in TextTypes
  {
  }

  lemma JsonNotInVideoTypes()
    ensures ".json" !in VideoTypes
  {
  }

  /** `.json` is in the table, as `application/json`. */
  lemma JsonEntry()
    ensures ".json" in ExtensionToHeader && ExtensionToHeader[".json"] == "application/json"
  {
    JsonInApplicationTypes1();
    JsonNotInApplicationTypes2();
    LookupLeft(ApplicationTypes1, ApplicationTypes2, ".json");
    JsonNotInApplicationTypes3();
    LookupLeft(ApplicationTypes1 + ApplicationTypes2, ApplicationTypes3, ".json");
    JsonNotInApplicationTypes4();
    LookupLeft(ApplicationTypes1 + ApplicationTypes2 + ApplicationTypes3, ApplicationTypes4, ".json");
    JsonNotInAudioTypes();
    LookupLeft(ApplicationTypes1 + ApplicationTypes2 + ApplicationTypes3 + ApplicationTypes4, AudioTypes, ".json");
    JsonNotInImageTypes();
    LookupLeft(ApplicationTypes1 + ApplicationTypes2 + ApplicationTypes3 + ApplicationTypes4 + AudioTypes, ImageTypes, ".json");
    JsonNotInMessageTypes();
    LookupLeft(ApplicationTypes1 + ApplicationTypes2 + ApplicationTypes3 + ApplicationTypes4 + AudioTypes + ImageTypes, MessageTypes, ".json");
    JsonNotInTextTypes();
    LookupLeft(ApplicationTypes1 + ApplicationTypes2 + ApplicationTypes3 + ApplicationTypes4 + AudioTypes + ImageTypes + MessageTypes, TextTypes, ".json");
    JsonNotInVideoTypes();
    LookupLeft(ApplicationTypes1 + ApplicationTypes2 + ApplicationTypes3 + ApplicationTypes4 + AudioTypes + ImageTypes + MessageTypes + TextTypes, VideoTypes, ".json");
  }

  // ---------------------------------------------------------------------
  // parse_content_type

  /** What `parse_content_type` returns: the media type and the parameters. */
  datatype ContentTypeHeader = ContentTypeHeader(mediaType: string, params: map<string, string>)

  /** The parameter loop, from the dictionary `acc` on: each segment must
      split into exactly two pieces on `=`, which are stripped (and not
      lower-cased) and stored, a later key replacing an earlier one. */
  function AddParams(acc: map<string, string>, segments: seq<string>): Result<map<string, string>>
    decreases |segments|
  {
    if segments == [] then Ok(acc)
    else
      var kv := Split(segments[0], '=');
      if |kv| != 2 then Err(MalformedContentType)
      else AddParams(acc[Strip(kv[0]) := Strip(kv[1])], segments[1..])
  }

  /** The media type of a header line: its first `;`-segment, lower-cased,
      then stripped. */
  function MediaTypeOf(line: string): string
  {
    Strip(Lower(Split(line, ';')[0]))
  }

  /** A media type with a `/` is judged by its subtype alone; one without is
      judged as a whole. */
  predicate MediaTypeAccepted(media: string, accepted: set<string>)
  {
    if '/' in media then Subtype(media) in accepted else media in accepted
  }

  /** What `parse_content_type(line, accepted)` returns or raises. */
  function ContentTypeOf(line: string, accepted: set<string>): Result<ContentTypeHeader>
  {
    if line == "" then Ok(ContentTypeHeader("", map[]))
    else
      var parts := Split(line, ';');
      var media := Strip(Lower(parts[0]));
      if !MediaTypeAccepted(media, accepted) then Err(UnknownContentType)
      else
        match AddParams(map[], parts[1..])
        case Err(e) => Err(e)
        case Ok(params) => Ok(ContentTypeHeader(media, params))
  }

  /** `parse_content_type(line, accepted_content_type=_accept)`. */
  method ParseContentType(line: string, accepted: set<string> := Accept()) returns (r: Result<ContentTypeHeader>)
    ensures r == ContentTypeOf(line, accepted)
  {
    if line == "" {
      return Ok(ContentTypeHeader("", map[]));
    }
    var parts := Split(line, ';');
    var fileTypeHeader := Strip(Lower(parts[0]));
    if '/' in fileTypeHeader {
      if Subtype(fileTypeHeader) !in accepted {
        return Err(UnknownContentType);
      }
    } else if fileTypeHeader !in accepted {
      return Err(UnknownContentType);
    }
    var params: map<string, string> := map[];
    assert parts[1..][0..] == parts[1..];
    for i := 1 to |parts|
      invariant AddParams(map[], parts[1..]) == AddParams(params, parts[i..])
    {
      assert parts[i..][0] == parts[i] && parts[i..][1..] == parts[i + 1..];
      var kv := Split(parts[i], '=');
      if |kv| != 2 {
        return Err(MalformedContentType);
      }
      params := params[Strip(kv[0]) := Strip(kv[1])];
    }
    return Ok(ContentTypeHeader(fileTypeHeader, params));
  }

  /** The parameter loop succeeds exactly when every segment has one `=`. */
  lemma {:induction false} AddParamsOk(acc: map<string, string>, segments: seq<string>)
    ensures AddParams(acc, segments).Ok? <==>
              forall i :: 0 <= i < |segments| ==> |Split(segments[i], '=')| == 2
    ensures AddParams(acc, segments).Err? ==> AddParams(acc, segments).error == MalformedContentType
    decreases |segments|
  {
    if segments != [] {
      var kv := Split(segments[0], '=');
      if |kv| == 2 {
        AddParamsOk(acc[Strip(kv[0]) := Strip(kv[1])], segments[1..]);
        assert forall i :: 1 <= i < |segments| ==> segments[i] == segments[1..][i - 1];
      }
    }
  }

  /** Folding two runs of segments is folding the first, then the second. */
  lemma {:induction false} AddParamsAppend(acc: map<string, string>, xs: seq<string>, ys: seq<string>)
    ensures AddParams(acc, xs + ys) ==
              if AddParams(acc, xs).Err? then AddParams(acc, xs) else AddParams(AddParams(acc, xs).value, ys)
    decreases |xs|
  {
    if xs == [] {
      assert xs + ys == ys;
    } else {
      assert (xs + ys)[0] == xs[0] && (xs + ys)[1..] == xs[1..] + ys;
      var kv := Split(xs[0], '=');
      if |kv| == 2 {
        AddParamsAppend(acc[Strip(kv[0]) := Strip(kv[1])], xs[1..], ys);
      }
    }
  }

  /** The empty line gives the empty media type and no parameters. */
  lemma ContentTypeEmpty(accepted: set<string>)
    ensures ContentTypeOf("", accepted) == Ok(ContentTypeHeader("", map[]))
  {
  }

  /** A non-empty line is accepted exactly when its media type is accepted
      and every parameter segment has one `=`; the media type returned is
      the first segment, lower-cased and stripped. An unaccepted media type
      is reported before any malformed parameter. */
  lemma ContentTypeAccepted(line: string, accepted: set<string>)
    requires line != ""
    ensures ContentTypeOf(line, accepted).Ok? <==>
              MediaTypeAccepted(MediaTypeOf(line), accepted) &&
              forall i :: 1 <= i < |Split(line, ';')| ==> |Split(Split(line, ';')[i], '=')| == 2
    ensures ContentTypeOf(line, accepted).Ok? ==> ContentTypeOf(line, accepted).value.mediaType == MediaTypeOf(line)
    ensures !MediaTypeAccepted(MediaTypeOf(line), accepted) <==> ContentTypeOf(line, accepted) == Err(UnknownContentType)
  {
    var parts := Split(line, ';');
    var media := Strip(Lower(parts[0]));
    assert media == MediaTypeOf(line);
    AddParamsOk(map[], parts[1..]);
    assert forall i :: 1 <= i < |parts| ==> parts[i] == parts[1..][i - 1];
    var allSplit := forall i :: 1 <= i < |parts| ==> |Split(parts[i], '=')| == 2;
    assert allSplit <==> AddParams(map[], parts[1..]).Ok?;
    if !MediaTypeAccepted(media, accepted) {
      assert ContentTypeOf(line, accepted) == Err(UnknownContentType);
    } else if AddParams(map[], parts[1..]).Err? {
      assert ContentTypeOf(line, accepted) == Err(MalformedContentType);
    } else {
      assert ContentTypeOf(line, accepted) == Ok(ContentTypeHeader(media, AddParams(map[], parts[1..]).value));
    }
  }

  /** Only the subtype is checked: the type before the `/` can be anything. */
  lemma OnlySubtypeChecked(a: string, c: string, b: string, accepted: set<string>)
    requires '/' !in a && '/' !in c
    ensures MediaTypeAccepted(a + "/" + b, accepted) <==> MediaTypeAccepted(c + "/" + b, accepted)
  {
    SubtypeOf(a, b);
    SubtypeOf(c, b);
  }

  /** A trailing `;` leaves an empty parameter segment, which is rejected. */
  lemma TrailingSemicolonRejected(line: string, accepted: set<string>)
    ensures ContentTypeOf(line + ";", accepted).Err?
  {
    var s := line + ";";
    assert s == line + [';'] + "";
    SplitAround(line, "", ';');
    var parts := Split(s, ';');
    assert parts[|parts| - 1] == "";
    assert Split("", '=') == [""];
    if MediaTypeAccepted(MediaTypeOf(s), accepted) {
      AddParamsOk(map[], parts[1..]);
      assert parts[1..][|parts| - 2] == "";
    }
  }

  /** One more `key=value` parameter is stored stripped, case kept, and
      replaces an earlier value for the same key. */
  lemma ParamLastWins(line: string, k: string, v: string, accepted: set<string>, ct: ContentTypeHeader)
    requires line != "" && ';' !in k && ';' !in v && '=' !in k && '=' !in v
    requires ContentTypeOf(line, accepted) == Ok(ct)
    ensures ContentTypeOf(line + ";" + k + "=" + v, accepted) ==
              Ok(ContentTypeHeader(ct.mediaType, ct.params[Strip(k) := Strip(v)]))
  {
    var item := k + "=" + v;
    var parts := Split(line, ';');
    SplitAppendSegment(line, item);
    assert line + ";" + k + "=" + v == line + ";" + item;
    assert (parts + [item])[1..] == parts[1..] + [item];
    AddParamsAppend(map[], parts[1..], [item]);
    OneParam(k, v);
  }

  /** A `;` and a segment without `;` add one last segment to the split. */
  lemma SplitAppendSegment(line: string, item: string)
    requires ';' !in item
    ensures Split(line + ";" + item, ';') == Split(line, ';') + [item]
  {
    assert line + ";" + item == line + [';'] + item;
    SplitAround(line, item, ';');
    SplitNoSeparator(item, ';');
  }

  /** One `k=v` segment adds the stripped pair. */
  lemma OneParam(k: string, v: string)
    requires '=' !in k && '=' !in v
    ensures forall acc: map<string, string> {:trigger AddParams(acc, [k + "=" + v])} ::
              AddParams(acc, [k + "=" + v]) == Ok(acc[Strip(k) := Strip(v)])
  {
    var item := k + "=" + v;
    assert item == k + ['='] + v;
    SplitAround(k, v, '=');
    SplitNoSeparator(k, '=');
    SplitNoSeparator(v, '=');
    assert [item][1..] == [];
  }

  lemma JsonSubtypeAccepted(table: map<string, string>)
    requires SlashedValues(table)
    requires ".json" in table && table[".json"] == "application/json"
    ensures "json" in AcceptedSubtypes(table)
  {
    SubtypeOf("application", "json");
    assert "application/json" == "application" + "/" + "json";
    SplitNoSeparator("json", '/');
    assert Subtype(table[".json"]) in AcceptedSubtypes(table);
  }

  /** With the default accepted set, the subtype `json` is accepted. */
  lemma JsonAccepted()
    ensures "json" in Accept()
  {
    JsonEntry();
    TableSlashed();
    JsonSubtypeAccepted(ExtensionToHeader);
  }

  // ---------------------------------------------------------------------
  // handleContent

  /** The handlers a file type can name: `handle_json`, whose body is the
      JSON library call and is not modelled. */
  datatype Handler = JsonHandler

  /** The module's functions named `handle_<type>`. */
  const ModuleHandlers: map<string, Handler> := map["handle_json" := JsonHandler]

  /** `handleContent(filetype)` without a handler object: look up
      `"handle_" + filetype[1:]` among the module's functions. Only the
      characters after the first count; a missing name is reported as an
      unsupported file type. */
  function HandleContent(filetype: string): (r: Result<Handler>)
    ensures r.Ok? <==> |filetype| >= 1 && filetype[1..] == "json"
    ensures r.Ok? ==> r.value == JsonHandler
    ensures r.Err? ==> r.error == UnsupportedFileType
  {
    var rest := if |filetype| >= 1 then filetype[1..] else "";
    var name := "handle_" + rest;
    assert name == "handle_json" <==> rest == "json" by {
      if name == "handle_json" {
        assert rest == name[7..];
      }
    }
    if name in ModuleHandlers then Ok(ModuleHandlers[name]) else Err(UnsupportedFileType)
  }

  /** Every supported type is in the table and has a handler. */
  lemma SupportedTypesHandled(t: string)
    requires t in TypesSupported
    ensures t in ExtensionToHeader && HandleContent(t) == Ok(JsonHandler)
  {
    SupportedIsJson(t);
    JsonEntry();
    JsonHandled();
  }

  lemma SupportedIsJson(t: string)
    requires t in TypesSupported
    ensures t == ".json"
  {
  }

  lemma JsonHandled()
    ensures HandleContent(".json") == Ok(JsonHandler)
  {
    assert ".json"[1..] == "json";
  }
}
