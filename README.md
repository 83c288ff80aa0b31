# pyweb request layer in Dafny

This project models the request-handling core of the pyweb WSGI
framework and proves properties of the model:

- **`pyweb/http/url.py`**: the Latin-1 string/byte conversions
  (`to_byte_array`, `to_string`), percent encoding of every byte outside
  the RFC 3986 (section 2.3) unreserved set, percent decoding driven by
  the pattern `(%[0-f][0-f])`, and the parsers `parse_query_string`,
  `parse_path_info` and `parse_host`.
- **`pyweb/http/header.py`**: the extension table, its inverse
  `header_to_extension`, the accepted-subtype set `_accept`, the
  `Content-Type` parser, and the handler lookup `handleContent`.
- **`pyweb/http/httpRequest.py`**: `BaseRequest`, a view of a WSGI
  environ whose accessors compute a value on first use and keep it in a
  cache field.
- **`pyweb/routing/router.py`**: `Router`, which walks the path segments
  through a graph of resource objects, records in `has_arg` how the last
  segment was used, and calls the resource's `do_<verb>` method.

Files:

- `Base.dfy`: `Option`, `Result` and one `Error` constructor per Python
  exception the code raises.
- `Text.dfy`: the Python `str` operations the code relies on: `split`,
  `"".join`, `strip`, `lstrip`, `lower`, and decimal and hexadecimal
  digits.
- `Url.dfy`, `Header.dfy`, `Request.dfy`, `Router.dfy`: one file per
  source file.

Where the source loops and updates state, the model does too. Each such
method is proved equal to a specification function, and the properties
are proved about that function:

- `to_byte_array`, `to_string`, `decode` (which rewrites its list of
  pieces in place), `parse_query_string`, `parse_content_type` and the
  module-level loop that builds `header_to_extension` are loop methods.
- `BaseRequest` and `Router` are classes. Their methods update the cache
  fields and `has_arg`.

The rest is pure functions.

The model follows the code where it and the written documentation of
the package differ:

- `parse_path_info` strips every leading `/`, not just one.
- `decode` never turns `+` into a space. The test meant for it compares
  the type `str` with `"+"`.
- `execute_request` calls `do_<verb>(last segment, query)` whenever
  `has_arg` is True or False. It calls `target()` only while `has_arg` is
  None, and at that point the target is always None.
- A leftover `%` followed by one hexadecimal digit decodes to the
  character whose code is that digit's value, instead of failing. This
  happens at the end of the input (a trailing `%4` gives `chr(4)`) and
  before another escape: `"%4%41"` splits as `["%4", "%41", ""]` and
  decodes to `"\x04A"`.
- A `Host` header with an explicit port leaves `_port` unassigned, so
  `port` returns None, and a later call repeats the lookup.
- When the server fallback fails on `SERVER_PORT`, `_host` has already
  been set, and `host` returns it afterwards.

## Model

| member | source | states |
|---|---|---|
| Url.ToByteArray | pyweb/http/url.py:73-88 | the loop's result is `Latin1Bytes(s)`: the codes of the characters below 256, in order |
| Url.ToString | pyweb/http/url.py:91-101 | the loop's result is `Latin1String(bs)`: one character per byte, of equal code |
| Url.Latin1BytesConcat | pyweb/http/url.py:83-87 | the bytes of a concatenation are the concatenation of the bytes (order is kept) |
| Url.Latin1BytesDrops | pyweb/http/url.py:84-85 | a character of code 256 or more is dropped wherever it stands |
| Url.Latin1BytesExact | pyweb/http/url.py:82-88 | on Latin-1 text there is one byte per character, equal to its code |
| Url.Latin1RoundTrip | pyweb/http/url.py:73-101 | `to_string(to_byte_array(s)) == s` for Latin-1 `s` |
| Url.BytesRoundTrip | pyweb/http/url.py:73-101 | `to_byte_array(to_string(b)) == b` for every byte string |
| Url.Latin1StringConcat | pyweb/http/url.py:98-101 | `to_string` of a concatenation is the concatenation |
| Url.ClassesDisjoint | pyweb/http/url.py:22-27 | the reserved and unreserved sets do not overlap, and `%` is in neither |
| Url.EncodeByte | pyweb/http/url.py:54-70 | an unreserved byte is kept; any other byte becomes `%` and two upper-case hex digits whose value is the byte |
| Url.EncodeByteIsSafe | pyweb/http/url.py:54-70 | every byte `_urlencode` emits is unreserved or `%`, and none is reserved |
| Url.Encode | pyweb/http/url.py:104-116 | `encode(bytes)` never shortens its input, and keeps its length iff every byte is unreserved; EncodeLength gives the exact length and EncodeDecodeBytes the round trip |
| Url.EncodeText | pyweb/http/url.py:104-116 | `encode(str)` encodes the Latin-1 bytes of the text, and for Latin-1 text `decode(to_string(encode(s))) == s` |
| Url.EncodeLength | pyweb/http/url.py:104-116 | output length is #unreserved + 3·#other |
| Url.EncodeConcat | pyweb/http/url.py:116 | encoding works byte by byte: `encode(a + b) == encode(a) + encode(b)` |
| Url.EncodeUnreservedIdentity | pyweb/http/url.py:116 | unreserved-only input is its own encoding |
| Url.EncodeOutputIsSafe | pyweb/http/url.py:104-116 | no reserved byte survives `encode`, and every output byte is unreserved or `%` |
| Url.SplitEscapesFrom | pyweb/http/url.py:133-134 | the split has an odd number of pieces, and every piece at an odd position is a three-character match of `%[0-f][0-f]` |
| Url.SplitEscapesStretches | pyweb/http/url.py:133-134 | once every position of the current stretch has been tried against the rest of the input, no piece at an even position holds a match |
| Url.SplitEscapesUnmatched | pyweb/http/url.py:133-134 | the pieces at even positions are unmatched stretches: none of them holds a match of `%[0-f][0-f]` |
| Url.SplitEscapesConcat | pyweb/http/url.py:134 | joining the pieces of the split gives the input back |
| Url.SplitWithoutPercent | pyweb/http/url.py:134 | text without `%` splits into itself alone |
| Url.SplitAtPlain | pyweb/http/url.py:133-134 | a character other than `%` joins the current unmatched stretch |
| Url.SplitAtEscape | pyweb/http/url.py:133-134 | a matched triplet closes the current stretch and is its own piece |
| Url.SplitPrefixWithoutPercent | pyweb/http/url.py:133-134 | a `%`-free prefix is absorbed into the current stretch |
| Url.SplitEscapeInContext | pyweb/http/url.py:133-134 | `%`-free text then a triplet splits as [text, triplet] followed by the split of the rest |
| Url.UrlDecodeItem | pyweb/http/url.py:36-51 | leading `%`s are stripped; the result is one character below 256 or InvalidEscape; on a matched triplet it succeeds iff both characters are hex digits, with their value |
| Url.LStripTriplet | pyweb/http/url.py:46 | on a matched triplet, `lstrip('%')` removes exactly the `%` |
| Url.DecodePiecesCons | pyweb/http/url.py:135-138 | decoding a list of pieces is decoding the first, then the rest; the first failure wins |
| Url.DecodePiecesSingle | pyweb/http/url.py:135-138 | a single piece decodes to its own decoding |
| Url.PrependAssoc | pyweb/http/url.py:138 | joining pieces already decoded onto a later result is associative |
| Url.PrependEmpty | pyweb/http/url.py:138 | joining nothing onto a result leaves it unchanged |
| Url.Decode | pyweb/http/url.py:119-138 | the in-place loop over the pieces returns `Decoded(s)`, including the first decoding error |
| Url.DecodedIsPieces | pyweb/http/url.py:128-138 | the shortcut for input without `%` or `+` gives the same result as the split-and-decode path |
| Url.DecodeWithoutPercent | pyweb/http/url.py:128-129 | text without `%` is returned unchanged, so `+` is never turned into a space |
| Url.DecodeEscapeInContext | pyweb/http/url.py:133-137 | a matched `%XY` after `%`-free text becomes `chr(int(XY, 16))` when X and Y are hex digits, and the rest is decoded on its own; a matched triplet that is not hex, such as `%:0` or `%G1`, is an error |
| Url.EscapedByteDecodes | pyweb/http/url.py:46-50 | the triplet `_urlencode` writes for a byte is matched by the pattern and decodes back to that byte |
| Url.EncodedTextCons | pyweb/http/url.py:116 | the text of an encoding is that of its first byte followed by that of the rest |
| Url.PlainStep | pyweb/http/url.py:116-138 | an unreserved byte at the front of an encoding decodes to itself, before the rest |
| Url.DecodeTextThenEscape | pyweb/http/url.py:135-138 | `%`-free text followed by a triplet that decodes to `c` decodes to the text, then `c`, then the rest |
| Url.EscapeStep | pyweb/http/url.py:116-138 | an escaped byte at the front of an encoding decodes to that byte, before the rest |
| Url.EncodedPiecesDecode | pyweb/http/url.py:104-138 | decoding the split of an encoding yields the original characters |
| Url.EncodeDecodeBytes | pyweb/http/url.py:104-138 | `decode(to_string(encode(b))) == to_string(b)` for every byte string |
| Url.EncodeDecodeRoundTrip | pyweb/http/url.py:104-138 | `decode(to_string(encode(s))) == s` for every Latin-1 string |
| Url.ParseQueryString | pyweb/http/url.py:141-159 | the loop that fills the dictionary returns `ParseQuery(query)`, including the `bad query field` error |
| Url.AddPairsAppend | pyweb/http/url.py:151-158 | folding two runs of pairs is folding the first, then the second from its dictionary; an error in the first wins |
| Url.QueryEmpty | pyweb/http/url.py:149-159 | the empty query string gives the empty dictionary |
| Url.QueryAppendPair | pyweb/http/url.py:149-158 | one more `&`-separated pair continues from the dictionary built so far |
| Url.QueryDropsBarePair | pyweb/http/url.py:154-155 | a pair without `=` is dropped |
| Url.PairPieces | pyweb/http/url.py:152 | `k=v` with no `=` or `&` in either part splits into exactly `[k, v]` |
| Url.AddOnePair | pyweb/http/url.py:158 | one pair stores its stripped, then decoded, key and value |
| Url.QueryLaterPairWins | pyweb/http/url.py:158 | a later pair for the same decoded key overwrites the earlier value |
| Url.QuerySinglePair | pyweb/http/url.py:149-159 | `k=v` alone maps the stripped, decoded key to the stripped, decoded value |
| Url.AddPairsRejectsExtraEquals | pyweb/http/url.py:156-157 | a pair with more than one `=`, wherever it stands, makes the fold fail |
| Url.QueryRejectsExtraEquals | pyweb/http/url.py:156-157 | a query with a pair holding two or more `=` is rejected |
| Url.ParsePathInfo | pyweb/http/url.py:162-170 | a successful parse is never an empty list |
| Url.PathInfoRoot | pyweb/http/url.py:169-170 | `""` and `"/"` give `[""]`, and leading slashes do not matter |
| Url.PathInfoSegments | pyweb/http/url.py:169-170 | without escapes the parse succeeds, and joining the segments with `/` gives the text after the leading slashes |
| Url.PathInfoEncodedSlash | pyweb/http/url.py:169-170 | a decoded `%2F` separates segments just like `/` |
| Url.LastIndexOf | pyweb/http/url.py:186-187 | None iff the character is absent; otherwise an index holding it with none after it |
| Url.LastIndexOfAfter | pyweb/http/url.py:186-187 | the last `c` of `a + c + b` is the one after `a` when `b` holds no `c` |
| Url.LastColonBeforeDigits | pyweb/http/url.py:186-187 | in `h:digits` the greedy group ends at the colon before the digits |
| Url.ParseHost | pyweb/http/url.py:173-192 | the host is a prefix of the input; when it is shorter, a `:` and only digits follow it; a port is returned iff at least one digit follows, and it is their decimal value |
| Url.ParseHostWithPort | pyweb/http/url.py:187-191 | `parse_host(h + ":" + digits) == (h, int(digits))`, even when `h` holds colons |
| Url.ParseHostEmptyPort | pyweb/http/url.py:187-192 | `parse_host(h + ":") == (h, None)` |
| Url.ParseHostRoundTrip | pyweb/http/url.py:187-191 | `parse_host(h + ":" + str(p)) == (h, p)` |
| Url.ParseHostUnchanged | pyweb/http/url.py:187-192 | the input comes back whole, with no port, iff no colon is followed by digits only |
| Url.ParseHostExample | pyweb/http/url.py:173-192 | `parse_host("h:8080") == ("h", 8080)` and `parse_host("h:") == ("h", None)` |
| Text.Split | pyweb/http/url.py:149 | `str.split` with one separator gives at least one piece, and no piece holds the separator |
| Text.SplitLength | pyweb/http/url.py:152-156 | the split has one more piece than the text has separators |
| Text.JoinSplit | pyweb/http/url.py:170 | joining the pieces with the separator gives the text back |
| Text.SplitJoin | pyweb/http/url.py:170 | splitting a join of separator-free pieces gives the pieces back |
| Text.SplitNoSeparator | pyweb/http/url.py:152-155 | text without the separator is one piece |
| Text.SplitAround | pyweb/http/url.py:149 | a separator between two texts splits their pieces apart |
| Text.FirstPieceAppend | pyweb/http/url.py:149 | extending the first piece commutes with appending further pieces |
| Text.SplitFirstPiece | pyweb/http/header.py:158 | the first piece of `split` is a prefix of the text, followed by the end or by the separator |
| Text.SplitFirstPieceOf | pyweb/http/header.py:158 | a separator-free prefix followed by the end or by the separator is the first piece |
| Text.ConcatAppend | pyweb/http/url.py:138 | `"".join` of a concatenation is the concatenation of the joins |
| Text.Strip | pyweb/http/url.py:158 | `strip()` is a slice with no whitespace at either end, and everything around it is whitespace |
| Text.TrimStartSlice | pyweb/http/url.py:158 | leading whitespace removal leaves a suffix starting with no whitespace |
| Text.TrimEndSlice | pyweb/http/url.py:158 | trailing whitespace removal leaves a prefix ending with no whitespace |
| Text.StripUnpadded | pyweb/http/header.py:168 | text with no whitespace at either end is left alone by `strip()` |
| Text.LStrip | pyweb/http/url.py:169 | `lstrip(c)` is no longer than its input and does not start with `c` |
| Text.LStripSlice | pyweb/http/url.py:169 | `lstrip(c)` leaves a suffix of the input, and everything it removed is `c` |
| Text.LowerChar | pyweb/http/header.py:168 | no capital survives lower-casing, a character that is not a capital is kept, and a capital moves to the small letter 32 code points above it |
| Text.LowerIdempotent | pyweb/http/header.py:168 | lower-casing twice is lower-casing once |
| Text.LowerUnchanged | pyweb/http/header.py:168 | `lower()` leaves a text alone iff it holds no capital |
| Text.LowerConcat | pyweb/http/header.py:168 | `lower()` of a concatenation is the concatenation of the `lower()`s |
| Text.DecimalString | pyweb/http/url.py:191 | `str(n)` is a non-empty string of digits |
| Text.DecimalRoundTrip | pyweb/http/url.py:191 | `int(str(n)) == n` |
| Text.HexValue | pyweb/http/url.py:50 | a hexadecimal digit has a value below 16 |
| Text.HexDigitUpper | pyweb/http/url.py:67 | the upper-case digit `'{:X}'` writes for `n` has value `n` |
| Header.BuildHeaderToExtension | pyweb/http/header.py:150-156 | the loop that fills `header_to_extension` returns `HeaderToExtension(table)` |
| Header.HeaderToExtensionInverse | pyweb/http/header.py:150-156 | the keys are the table's media types; `e` is in the set for `m` iff the table maps `e` to `m`; no set is empty |
| Header.SlashedUnion | pyweb/http/header.py:14-146 | the union of two tables whose media types all have a `/` keeps that property |
| Header.ApplicationTypes1Slashed | pyweb/http/header.py:15-32 | every media type of the first application group has a `/` |
| Header.ApplicationTypes2Slashed | pyweb/http/header.py:33-50 | every media type of the second application group has a `/` |
| Header.ApplicationTypes3Slashed | pyweb/http/header.py:51-68 | every media type of the third application group has a `/` |
| Header.ApplicationTypes4Slashed | pyweb/http/header.py:69-83 | every media type of the last application group has a `/` |
| Header.AudioTypesSlashed | pyweb/http/header.py:84-92 | every audio media type has a `/` |
| Header.ImageTypesSlashed | pyweb/http/header.py:93-112 | every image media type has a `/` |
| Header.MessageTypesSlashed | pyweb/http/header.py:113-116 | every message media type has a `/` |
| Header.TextTypesSlashed | pyweb/http/header.py:117-134 | every text media type has a `/` |
| Header.VideoTypesSlashed | pyweb/http/header.py:135-145 | every video media type has a `/` |
| Header.TableSlashed | pyweb/http/header.py:14-146 | every media type of `extension_to_header` has a `/`, so `_accept` is defined |
| Header.Subtype | pyweb/http/header.py:158 | `media.split("/")[1]` holds no `/` |
| Header.SubtypeOf | pyweb/http/header.py:158 | the subtype of `a/b` is the part of `b` before any further `/` |
| Header.SubtypeMeaning | pyweb/http/header.py:158 | `media.split("/")[1] == s` iff `media` is `a/s` followed by nothing or by a further `/`, with no `/` in `a` or `s` |
| Header.AcceptedSubtypesMeaning | pyweb/http/header.py:158 | for any table whose media types all hold a `/`, `s` is in the accepted set iff some media type of the table is `a/s`, followed by nothing or by a further `/`, with no `/` in `a` or `s` |
| Header.AcceptMeaning | pyweb/http/header.py:158 | `_accept` (`Header.Accept`) holds exactly the texts `s` such that some media type of `extension_to_header` is `a/s`, followed by nothing or by a further `/`, with no `/` in `a` or `s` |
| Header.LookupLeft | pyweb/http/header.py:14-146 | a key of the left part only of a union keeps its value |
| Header.JsonInApplicationTypes1 | pyweb/http/header.py:17 | `.json` maps to `application/json` in the first group |
| Header.JsonNotInApplicationTypes2 | pyweb/http/header.py:33-50 | `.json` is not in the second application group |
| Header.JsonNotInApplicationTypes3 | pyweb/http/header.py:51-68 | `.json` is not in the third application group |
| Header.JsonNotInApplicationTypes4 | pyweb/http/header.py:69-83 | `.json` is not in the last application group |
| Header.JsonNotInAudioTypes | pyweb/http/header.py:84-92 | `.json` is not among the audio types |
| Header.JsonNotInImageTypes | pyweb/http/header.py:93-112 | `.json` is not among the image types |
| Header.JsonNotInMessageTypes | pyweb/http/header.py:113-116 | `.json` is not among the message types |
| Header.JsonNotInTextTypes | pyweb/http/header.py:117-134 | `.json` is not among the text types |
| Header.JsonNotInVideoTypes | pyweb/http/header.py:135-145 | `.json` is not among the video types |
| Header.JsonEntry | pyweb/http/header.py:14-17 | `extension_to_header[".json"] == "application/json"` |
| Header.JsonSubtypeAccepted | pyweb/http/header.py:158 | a table mapping `.json` to `application/json` has `json` among its subtypes |
| Header.JsonAccepted | pyweb/http/header.py:158-161 | `json` is in the default accepted set |
| Header.ParseContentType | pyweb/http/header.py:161-183 | the loop that fills the parameters returns `ContentTypeOf(line, accepted)`, including both errors |
| Header.AddParamsOk | pyweb/http/header.py:176-182 | the parameter loop succeeds iff every segment splits on `=` into two pieces; otherwise the error is the malformed-header one |
| Header.AddParamsAppend | pyweb/http/header.py:177-182 | folding two runs of segments is folding the first, then the second |
| Header.ContentTypeEmpty | pyweb/http/header.py:165-166 | `parse_content_type("") == ["", {}]` |
| Header.ContentTypeAccepted | pyweb/http/header.py:167-183 | a non-empty line is accepted iff its media type is accepted and every parameter has one `=`; the media type is the first segment lower-cased and stripped; `unknown content type` is raised iff the media type is not accepted |
| Header.OnlySubtypeChecked | pyweb/http/header.py:169-171 | the type before `/` is never checked: two media types with the same subtype are judged alike |
| Header.TrailingSemicolonRejected | pyweb/http/header.py:176-180 | a trailing `;` is rejected |
| Header.ParamLastWins | pyweb/http/header.py:182 | a further `key=value` is stored stripped, with its case kept, and overwrites an earlier value for the key |
| Header.SplitAppendSegment | pyweb/http/header.py:167 | `;` and a segment without `;` add one last segment to the split |
| Header.OneParam | pyweb/http/header.py:178-182 | one `k=v` segment adds the stripped pair to any dictionary |
| Header.HandleContent | pyweb/http/header.py:186-191 | a handler is found iff the name after the first character is `json`; then it is the JSON handler, otherwise `this filetype is not supported` |
| Header.SupportedTypesHandled | pyweb/http/header.py:148-191 | every supported type is in the table and has a handler |
| Header.JsonHandled | pyweb/http/header.py:186-191 | `handleContent(".json")` returns the JSON handler |
| Request.ServerAuthority | pyweb/http/httpRequest.py:39-41 | a fallback that yields a port has also stored a host |
| Request.Resolve | pyweb/http/httpRequest.py:33-41 | a port lookup that succeeds always leaves a host behind |
| Request.BaseRequest.constructor | pyweb/http/httpRequest.py:6-19 | the method is `REQUEST_METHOD`, the path info is `PATH_INFO` or `/`, and every cache is empty |
| Request.BaseRequest.Method | pyweb/http/httpRequest.py:21-23 | `method` is the environ's `REQUEST_METHOD` |
| Request.BaseRequest.Port | pyweb/http/httpRequest.py:25-42 | `port` returns `Resolve(env).port`, stores the host and port it computed, and keeps the caches valid |
| Request.BaseRequest.Host | pyweb/http/httpRequest.py:44-48 | a cached host is returned and neither cache changes; otherwise the port lookup runs first, its error, if any, is raised, and `_host` and `_port` then hold what the lookup stored |
| Request.BaseRequest.Path | pyweb/http/httpRequest.py:50-54 | `path` is `parse_path_info(_pathinfo)`, computed once and then returned from the cache |
| Request.BaseRequest.QueryString | pyweb/http/httpRequest.py:56-65 | `query_string` is the parse of the recoded `QUERY_STRING`, or of `""` when missing, computed once |
| Request.BaseRequest.ContentType | pyweb/http/httpRequest.py:67-78 | a GET request gets the empty content type and the cache is untouched; otherwise the decoded, recoded header is computed once |
| Request.BaseRequest.ContentLength | pyweb/http/httpRequest.py:80-85 | `content_length` is `CONTENT_LENGTH` when the environ has it, else 0 |
| Request.HostWithoutPort | pyweb/http/httpRequest.py:33-38 | for an `HTTP_HOST` with no `:` at all, the host is the header and the port is 443 for `https`, else 80 |
| Request.HostWithExplicitPort | pyweb/http/httpRequest.py:35-38 | with an explicit port, `_host` is the host part and `port` returns None |
| Request.HostFromServer | pyweb/http/httpRequest.py:39-41 | without `HTTP_HOST`, host and port are `SERVER_NAME` and `SERVER_PORT` |
| Request.MissingQueryIsEmpty | pyweb/http/httpRequest.py:59-64 | a missing `QUERY_STRING` gives the empty dictionary |
| Request.HostAsWrittenOf | pyweb/http/httpRequest.py:44-48 | `host` as written returns a filled `_host`; on an empty `_host` it never returns a value, but raises the port lookup's error or, when the lookup succeeds, TypeError |
| Request.BaseRequest.HostAsWritten | pyweb/http/httpRequest.py:44-48 | the as-written accessor returns `HostAsWrittenOf(env, _host)` and leaves in `_host` and `_port` what the port lookup stored, even when it then raises |
| Request.HostAsWrittenFails | pyweb/http/httpRequest.py:44-48 | for `Host: h` over HTTP, the first `host` as written raises TypeError while the intended accessor returns `h`; the `_host` it stored makes a second call return `h` |
| Router.Walk | pyweb/routing/router.py:11-16 | a failed walk always reports `Resource cannot be located` |
| Router.Router.constructor | pyweb/routing/router.py:5-7 | the root is the given object and `has_arg` is None |
| Router.Router.FindObject | pyweb/routing/router.py:9-26 | the loop returns what `Find` computes and sets `has_arg` to its value; on an error `has_arg` is unchanged |
| Router.Router.ExecuteRequest | pyweb/routing/router.py:28-34 | the result and the new `has_arg` are those of `Execute`, and a set `has_arg` stays set |
| Router.WalkAppend | pyweb/routing/router.py:11-16 | walking a path in two steps is walking it at once |
| Router.WalkPrefixFails | pyweb/routing/router.py:13-16 | a lookup that fails part-way makes every longer walk fail |
| Router.FindEmpty | pyweb/routing/router.py:9-11 | an empty path returns None and leaves `has_arg` alone |
| Router.FindBrokenPath | pyweb/routing/router.py:11-16 | a missing attribute before the last segment is `Resource cannot be located`, and `has_arg` keeps its value |
| Router.FindCallable | pyweb/routing/router.py:18-23 | a callable last attribute is returned, and `has_arg` becomes False |
| Router.FindNotCallable | pyweb/routing/router.py:20-21 | a last attribute that is not callable is `Resource cannot be located` |
| Router.FindArgument | pyweb/routing/router.py:24-26 | a missing last attribute returns the parent, and `has_arg` becomes True |
| Router.FindSetsHasArg | pyweb/routing/router.py:9-26 | a successful find returns an object iff the path is non-empty, and then `has_arg` is set |
| Router.HasArgStaysSet | pyweb/routing/router.py:22-30 | once `has_arg` is set, no request makes it None again |
| Router.HasArgStaysSetAll | pyweb/routing/router.py:22-30 | the same holds over any sequence of requests |
| Router.NoDirectCall | pyweb/routing/router.py:29-34 | every successful request is a `do_<verb>` call; `target()` with `has_arg` None raises TypeError |
| Router.EmptyPath | pyweb/routing/router.py:28-34 | an empty path raises TypeError on a fresh router and AttributeError once `has_arg` is set, and leaves `has_arg` alone |
| Router.VerbDispatch | pyweb/routing/router.py:30-32 | a successful request calls `do_<lowercased method>` on the found object, with the last segment and the query, for `has_arg` True and False alike |
| Router.UsersWithId | pyweb/routing/router.py:24-32 | `GET /users/42` calls `users.do_get("42", query)` and sets `has_arg` to True |
| Router.UsersListCall | pyweb/routing/router.py:18-32 | `GET /users/list` on a callable `list` sets `has_arg` to False and still calls `list.do_get("list", query)` |
| Router.UsersNoPost | pyweb/routing/router.py:31 | `POST /users/42` on a resource without `do_post` raises AttributeError |

## Left out

- `handle_json` and `json.loads` (pyweb/http/header.py:199-201) are a library call. The handler is the opaque value `JsonHandler`.
- `handleContent` with an explicit `handler` argument (pyweb/http/header.py:192-196) does `getattr` on an arbitrary object. Only the global-name lookup is modelled, over a one-entry name-to-handler map. `Header.HandleContent` describes that lookup.
- The `_HEX2BYTE` and `_BYTE2HEX` memo tables and their self-recursive fill (pyweb/http/url.py:32-33, 43-51, 62-68) only serve performance. `_urldecode` and `_urlencode` are pure functions here.
- `Url.UrlDecodeItem`: Python's `int(..., 16)` also accepts surrounding whitespace, a sign, a `0x` prefix, underscores and non-ASCII decimal digits. A leftover piece such as `%+1` or `%٤` (an Arabic-Indic four, which Python decodes to `chr(4)`) is therefore reported as an error here.
- General regular-expression semantics are not modelled. The two patterns (pyweb/http/url.py:133, 186) are modelled directly.
- `str.lower()` covers ASCII and the Latin-1 capitals only. `str.isspace()` is the fixed list of Python's whitespace characters.
- The UTF-8 decoding with replacement after the Latin-1 encoding (pyweb/http/httpRequest.py:60-61, 73-74) is a charset conversion. It is the function parameter `decodeUtf8` of `BaseRequest`.
- The `ContentType` and `HTTPBody` classes imported from `.header` are not part of this model. The content type is the header text it is built from, and `message_body` (pyweb/http/httpRequest.py:87-89) is left out as stream I/O.
- `wsgi.errors` and `wsgi.input` are I/O streams. The model only requires that the keys exist.
- `Request.BaseRequest.constructor` requires `REQUEST_METHOD`, `wsgi.errors` and `wsgi.input` in the environ, so the KeyError the constructor raises without them (pyweb/http/httpRequest.py:8, 13-14) is not modelled. PEP 3333 requires every WSGI server to supply these keys.
- `httpRequest.py` imports `._url`, a module that is not part of this model. It is read as `url.py`.
- `Request.BaseRequest.Host` models `host` as "run the port lookup, then return `_host`". As written, the code calls the value of the `port` property (see Findings).
- `router.py` reads `request.object_location`, which `BaseRequest` does not define. The router takes a `RouteRequest` value: the parsed path, the method, and the value or error of `query_string`.
- Python's `getattr` and `hasattr(__call__)` on arbitrary objects are modelled as a resource graph: each object has an attribute map and a callable flag, and the `do_<verb>` methods are entries of that map.
- What a `do_<verb>` method or `target()` returns is application code. The model records the call and its arguments (`Response`).
- Calling `target()` with an object is modelled (`Router.CallObject`), but that case is never reached here.
- `pyweb/http/HttpRequest.py` is a thin wrapper over standard-library calls and is not part of this model.

## Findings

| source | as written | input that shows it | evidently intended | confidence | as-written member | corrected member |
|---|---|---|---|---|---|---|
| pyweb/http/httpRequest.py:47 | `host` calls `self.port()`, but `port` is a property, so its value (an int, text or None) is called and TypeError is raised | an environ with `HTTP_HOST` `h` and `wsgi.url_scheme` `http`: the first use of `host`, before any `port` read, raises TypeError | run the port lookup (`self.port`) and return `_host`, here `h` | high; not executed | Request.BaseRequest.HostAsWritten | Request.BaseRequest.Host |
