/** The percent codec and the small URL grammars of `pyweb/http/url.py`:
    Latin-1 string/byte conversion, percent encoding of every byte outside
    the RFC 3986 (section 2.3) unreserved set, percent decoding driven by the
    pattern `(%[0-f][0-f])`, and the parsers for query strings, path info
    and `host:port`. */
module Url {
  import opened Base
  import opened Text

  // ---------------------------------------------------------------------
  // Character classes of RFC 3986, over bytes

  predicate IsAlpha(b: byte) { 65 <= b <= 90 || 97 <= b <= 122 }

  predicate IsDigitByte(b: byte) { 48 <= b <= 57 }

  /** gen-delims `:/?#[]@` of RFC 3986 section 2.2. */
  const GenDelims: set<byte> := {58, 47, 63, 35, 91, 93, 64}

  /** sub-delims `!$&'()*+,;=` of RFC 3986 section 2.2. */
  const SubDelims: set<byte> := {33, 36, 38, 39, 40, 41, 42, 43, 44, 59, 61}

  /** unreserved = ALPHA / DIGIT / `-` / `.` / `_` / `~` (RFC 3986 section 2.3). */
  predicate IsUnreserved(b: byte)
  {
    IsAlpha(b) || IsDigitByte(b) || b == 45 || b == 46 || b == 95 || b == 126
  }

  predicate IsReserved(b: byte) { b in GenDelims + SubDelims }

  /** The two classes do not overlap, and `%` (which introduces an escape)
      belongs to neither. */
  lemma ClassesDisjoint(b: byte)
    ensures !(IsReserved(b) && IsUnreserved(b))
    ensures b == 37 ==> !IsReserved(b) && !IsUnreserved(b)
  {
  }

  // ---------------------------------------------------------------------
  // Latin-1 conversion

  predicate IsLatin1(s: string)
  {
    forall i :: 0 <= i < |s| ==> s[i] as int < 256
  }

  /** The bytes `to_byte_array` produces: the code of every character below
      256, in order; other characters contribute nothing. */
  function Latin1Bytes(s: string): (r: seq<byte>)
    ensures |r| <= |s|
    decreases |s|
  {
    if s == [] then []
    else
      var c := s[|s| - 1];
      Latin1Bytes(s[..|s| - 1]) + (if c as int < 256 then [c as int as byte] else [])
  }

  /** The string `to_string` produces: `chr(b)` for every byte. */
  function Latin1String(bs: seq<byte>): (r: string)
    ensures |r| == |bs|
    ensures forall i :: 0 <= i < |bs| ==> r[i] as int == bs[i] as int
    ensures IsLatin1(r)
  {
    seq(|bs|, i requires 0 <= i < |bs| => bs[i] as int as char)
  }

  /** `to_byte_array(string)`: a loop appending `ord(char)` for each
      character below 256. */
  method ToByteArray(s: string) returns (r: seq<byte>)
    ensures r == Latin1Bytes(s)
  {
    r := [];
    for i := 0 to |s|
      invariant r == Latin1Bytes(s[..i])
    {
      assert s[..i + 1][..i] == s[..i];
      if s[i] as int >= 256 {
        // skipped: not representable in ISO/IEC 8859-1
      } else {
        r := r + [s[i] as int as byte];
      }
    }
    assert s[..|s|] == s;
  }

  /** `to_string(byte_array)`: a loop appending `chr(byte)`, then a join. */
  method ToString(bs: seq<byte>) returns (r: string)
    ensures r == Latin1String(bs)
  {
    r := "";
    for i := 0 to |bs|
      invariant r == Latin1String(bs[..i])
    {
      r := r + [bs[i] as int as char];
    }
    assert bs[..|bs|] == bs;
  }

  /** Conversion keeps order: the bytes of a concatenation are the
      concatenation of the bytes. */
  lemma {:induction false} Latin1BytesConcat(a: string, b: string)
    ensures Latin1Bytes(a + b) == Latin1Bytes(a) + Latin1Bytes(b)
    decreases |b|
  {
    if b == [] {
      assert a + b == a;
    } else {
      var b' := b[..|b| - 1];
      assert (a + b)[..|a + b| - 1] == a + b';
      Latin1BytesConcat(a, b');
    }
  }

  /** A character of code 256 or more is dropped wherever it stands. */
  lemma Latin1BytesDrops(a: string, c: char, b: string)
    requires c as int >= 256
    ensures Latin1Bytes(a + [c] + b) == Latin1Bytes(a + b)
  {
    Latin1BytesConcat(a + [c], b);
    Latin1BytesConcat(a, [c]);
    Latin1BytesConcat(a, b);
    assert [c][..0] == [];
  }

  /** On Latin-1 text nothing is dropped: one byte per character, equal to
      its code. */
  lemma {:induction false} Latin1BytesExact(s: string)
    requires IsLatin1(s)
    ensures |Latin1Bytes(s)| == |s|
    ensures forall i :: 0 <= i < |s| ==> Latin1Bytes(s)[i] as int == s[i] as int
    decreases |s|
  {
    if s != [] {
      Latin1BytesExact(s[..|s| - 1]);
    }
  }

  /** `to_string(to_byte_array(s)) == s` for Latin-1 text. */
  lemma Latin1RoundTrip(s: string)
    requires IsLatin1(s)
    ensures Latin1String(Latin1Bytes(s)) == s
  {
    Latin1BytesExact(s);
  }

  /** `to_byte_array(to_string(b)) == b` for every byte string. */
  lemma {:induction false} BytesRoundTrip(bs: seq<byte>)
    ensures Latin1Bytes(Latin1String(bs)) == bs
    decreases |bs|
  {
    if bs != [] {
      var s := Latin1String(bs);
      var bs' := bs[..|bs| - 1];
      assert s[..|s| - 1] == Latin1String(bs');
      BytesRoundTrip(bs');
    }
  }

  lemma Latin1StringConcat(a: seq<byte>, b: seq<byte>)
    ensures Latin1String(a + b) == Latin1String(a) + Latin1String(b)
  {
  }

  // ---------------------------------------------------------------------
  // Percent encoding

  /** `_urlencode(char)`: an unreserved byte stands for itself; any other
      byte becomes `%` followed by its two upper-case hexadecimal digits
      (`'%{:02X}'.format(char)`). */
  function EncodeByte(b: byte): (r: seq<byte>)
    ensures IsUnreserved(b) ==> r == [b]
    ensures !IsUnreserved(b) ==>
              |r| == 3 && r[0] == 37 &&
              IsHexDigit(r[1] as int as char) && IsHexDigit(r[2] as int as char) &&
              !('a' <= r[1] as int as char <= 'f') && !('a' <= r[2] as int as char <= 'f') &&
              16 * HexValue(r[1] as int as char) + HexValue(r[2] as int as char) == b as int
  {
    if IsUnreserved(b) then [b]
    else [37, HexDigitUpper(b as int / 16) as int as byte, HexDigitUpper(b as int % 16) as int as byte]
  }

  /** `encode(bytes)`: the concatenation of `_urlencode` over the input.
      It never shortens its input, and keeps its length exactly when every
      byte is unreserved. */
  function Encode(bs: seq<byte>): (r: seq<byte>)
    ensures |r| >= |bs|
    ensures |r| == |bs| <==> forall i :: 0 <= i < |bs| ==> IsUnreserved(bs[i])
    decreases |bs|
  {
    if bs == [] then []
    else
      var rest := Encode(bs[1..]);
      assert forall i :: 1 <= i < |bs| ==> bs[i] == bs[1..][i - 1];
      EncodeByte(bs[0]) + rest
  }

  /** `encode(str)`: the string is first turned into bytes by
      `to_byte_array`; for Latin-1 text, `decode` turns the result back into
      the text. */
  function EncodeText(s: string): (r: seq<byte>)
    ensures IsLatin1(s) ==> Decoded(Latin1String(r)) == Ok(s)
  {
    var r := Encode(Latin1Bytes(s));
    if IsLatin1(s) then
      EncodeDecodeBytes(Latin1Bytes(s));
      Latin1RoundTrip(s);
      r
    else r
  }

  function CountUnreserved(bs: seq<byte>): (n: nat)
    ensures n <= |bs|
    decreases |bs|
  {
    if bs == [] then 0 else (if IsUnreserved(bs[0]) then 1 else 0) + CountUnreserved(bs[1..])
  }

  /** Output length is one byte per unreserved byte and three per other byte. */
  lemma {:induction false} EncodeLength(bs: seq<byte>)
    ensures |Encode(bs)| == CountUnreserved(bs) + 3 * (|bs| - CountUnreserved(bs))
    decreases |bs|
  {
    if bs != [] {
      EncodeLength(bs[1..]);
    }
  }

  /** Encoding works byte by byte. */
  lemma {:induction false} EncodeConcat(a: seq<byte>, b: seq<byte>)
    ensures Encode(a + b) == Encode(a) + Encode(b)
    decreases |a|
  {
    if a == [] {
      assert a + b == b;
    } else {
      assert (a + b)[0] == a[0] && (a + b)[1..] == a[1..] + b;
      EncodeConcat(a[1..], b);
    }
  }

  /** Unreserved-only input is its own encoding. */
  lemma {:induction false} EncodeUnreservedIdentity(bs: seq<byte>)
    requires forall i :: 0 <= i < |bs| ==> IsUnreserved(bs[i])
    ensures Encode(bs) == bs
    decreases |bs|
  {
    if bs != [] {
      EncodeUnreservedIdentity(bs[1..]);
    }
  }

  /** Every byte that `encode` emits is unreserved, `%`, or an upper-case
      hexadecimal digit; in particular no reserved byte survives. */
  lemma {:induction false} EncodeOutputIsSafe(bs: seq<byte>)
    ensures forall i :: 0 <= i < |Encode(bs)| ==>
              IsUnreserved(Encode(bs)[i]) || Encode(bs)[i] == 37
    ensures forall i :: 0 <= i < |Encode(bs)| ==> !IsReserved(Encode(bs)[i])
    decreases |bs|
  {
    if bs != [] {
      EncodeOutputIsSafe(bs[1..]);
      var e, tail := EncodeByte(bs[0]), Encode(bs[1..]);
      EncodeByteIsSafe(bs[0]);
      forall i | 0 <= i < |e + tail|
        ensures IsUnreserved((e + tail)[i]) || (e + tail)[i] == 37
        ensures !IsReserved((e + tail)[i])
      {
        if i < |e| {
          assert (e + tail)[i] == e[i];
        } else {
          assert (e + tail)[i] == tail[i - |e|];
        }
      }
    }
  }

  lemma EncodeByteIsSafe(b: byte)
    ensures forall i :: 0 <= i < |EncodeByte(b)| ==>
              (IsUnreserved(EncodeByte(b)[i]) || EncodeByte(b)[i] == 37) && !IsReserved(EncodeByte(b)[i])
  {
    var e := EncodeByte(b);
    ClassesDisjoint(b);
    if !IsUnreserved(b) {
      ClassesDisjoint(e[1]);
      ClassesDisjoint(e[2]);
    }
  }

  // ---------------------------------------------------------------------
  // Percent decoding

  /** The character class `[0-f]` of the escape pattern: the code range
      U+0030..U+0066, which holds the hexadecimal digits but also
      `:;<=>?@`, `G`-`Z`, `[\]^_` and the back-quote. */
  predicate InEscapeRange(c: char) { '0' <= c <= 'f' }

  /** The pattern `%[0-f][0-f]` matches at position `i`. */
  predicate EscapeAt(s: string, i: nat)
  {
    i + 3 <= |s| && s[i] == '%' && InEscapeRange(s[i + 1]) && InEscapeRange(s[i + 2])
  }

  /** `re.split("(%[0-f][0-f])", s)`, with `text` the part of the current
      unmatched stretch already scanned: unmatched stretches and matches
      alternate, starting and ending with a (possibly empty) stretch. */
  function SplitEscapesFrom(s: string, text: string): (parts: seq<string>)
    ensures |parts| % 2 == 1
    ensures forall i :: 0 <= i < |parts| && i % 2 == 1 ==> |parts[i]| == 3 && EscapeAt(parts[i], 0)
    decreases |s|
  {
    if s == [] then [text]
    else if EscapeAt(s, 0) then [text, s[..3]] + SplitEscapesFrom(s[3..], "")
    else SplitEscapesFrom(s[1..], text + [s[0]])
  }

  function SplitEscapes(s: string): seq<string>
  {
    SplitEscapesFrom(s, "")
  }

  /** No unmatched stretch of a split holds a match of the pattern. */
  predicate StretchesUnmatched(parts: seq<string>)
  {
    forall i, j :: 0 <= i < |parts| && i % 2 == 0 && 0 <= j < |parts[i]| ==> !EscapeAt(parts[i], j)
  }

  /** No position of the stretch `text` starts a match in `text + s`. */
  predicate ScannedWithoutMatch(text: string, s: string)
  {
    forall j :: 0 <= j < |text| ==> !EscapeAt(text + s, j)
  }

  /** A match inside `text` would also be a match in `text + s`. */
  lemma PrefixUnmatched(text: string, s: string)
    requires ScannedWithoutMatch(text, s)
    ensures forall j :: 0 <= j < |text| ==> !EscapeAt(text, j)
  {
    forall j | 0 <= j < |text|
      ensures !EscapeAt(text, j)
    {
      assert !EscapeAt(text + s, j);
      if j + 3 <= |text| {
        assert (text + s)[j] == text[j] && (text + s)[j + 1] == text[j + 1] && (text + s)[j + 2] == text[j + 2];
      }
    }
  }

  /** A position without a match joins the stretch already scanned. */
  lemma ExtendStretch(text: string, s: string)
    requires s != [] && !EscapeAt(s, 0)
    requires ScannedWithoutMatch(text, s)
    ensures ScannedWithoutMatch(text + [s[0]], s[1..])
  {
    assert text + [s[0]] + s[1..] == text + s;
    assert (text + s)[|text|..] == s;
  }

  /** A match-free stretch and a match in front of a split keep its
      stretches match-free. */
  lemma StretchesCons(text: string, t: string, rest: seq<string>)
    requires forall j :: 0 <= j < |text| ==> !EscapeAt(text, j)
    requires StretchesUnmatched(rest)
    ensures StretchesUnmatched([text, t] + rest)
  {
    var parts := [text, t] + rest;
    forall i, j | 0 <= i < |parts| && i % 2 == 0 && 0 <= j < |parts[i]|
      ensures !EscapeAt(parts[i], j)
    {
      if i >= 2 {
        assert parts[i] == rest[i - 2];
      }
    }
  }

  /** The scan tried every position of the current stretch against the
      whole remaining input, so the stretches it closes hold no match. */
  lemma {:induction false} SplitEscapesStretches(s: string, text: string)
    requires ScannedWithoutMatch(text, s)
    ensures StretchesUnmatched(SplitEscapesFrom(s, text))
    decreases |s|
  {
    PrefixUnmatched(text, s);
    if s == [] {
      assert SplitEscapesFrom(s, text) == [text];
    } else if EscapeAt(s, 0) {
      var rest := SplitEscapesFrom(s[3..], "");
      assert SplitEscapesFrom(s, text) == [text, s[..3]] + rest;
      SplitEscapesStretches(s[3..], "");
      StretchesCons(text, s[..3], rest);
    } else {
      assert SplitEscapesFrom(s, text) == SplitEscapesFrom(s[1..], text + [s[0]]);
      ExtendStretch(text, s);
      SplitEscapesStretches(s[1..], text + [s[0]]);
    }
  }

  /** `re.split` with a capturing group: the pieces at even positions are
      the unmatched stretches, and none of them holds a match. */
  lemma SplitEscapesUnmatched(s: string)
    ensures StretchesUnmatched(SplitEscapes(s))
  {
    SplitEscapesStretches(s, "");
  }

  /** The pieces of the split put back together give the input. */
  lemma {:induction false} SplitEscapesConcat(s: string, text: string)
    ensures Concat(SplitEscapesFrom(s, text)) == text + s
    decreases |s|
  {
    if s == [] {
      ConcatSingle(text);
    } else if EscapeAt(s, 0) {
      var rest := SplitEscapesFrom(s[3..], "");
      assert SplitEscapesFrom(s, text) == [text, s[..3]] + rest;
      SplitEscapesConcat(s[3..], "");
      ConcatTwoThen(text, s[..3], rest);
      CutAt(text, s, 3);
    } else {
      assert SplitEscapesFrom(s, text) == SplitEscapesFrom(s[1..], text + [s[0]]);
      SplitEscapesConcat(s[1..], text + [s[0]]);
      CutAt(text, s, 1);
    }
  }

  /** Cutting `s` at `k` and gluing the halves back after `text`. */
  lemma CutAt(text: string, s: string, k: nat)
    requires k <= |s|
    ensures text + s[..k] + s[k..] == text + s
    ensures k == 1 ==> text + [s[0]] + s[1..] == text + s
  {
    assert s[..k] + s[k..] == s;
  }

  lemma ConcatSingle(a: string)
    ensures Concat([a]) == a
  {
    assert [a][..0] == [];
    assert "" + a == a;
  }

  lemma ConcatTwoThen(a: string, b: string, rest: seq<string>)
    ensures Concat([a, b] + rest) == a + b + Concat(rest)
  {
    ConcatAppend([a, b], rest);
    assert [a, b][..1] == [a];
    ConcatSingle(a);
  }

  /** Text without `%` is one unmatched stretch. */
  lemma {:induction false} SplitWithoutPercent(s: string, text: string)
    requires '%' !in s
    ensures SplitEscapesFrom(s, text) == [text + s]
    decreases |s|
  {
    if s == [] {
      assert text + s == text;
    } else {
      assert s[0] != '%';
      assert '%' !in s[1..];
      SplitWithoutPercent(s[1..], text + [s[0]]);
      assert text + [s[0]] + s[1..] == text + s;
    }
  }

  lemma SplitAtPlain(c: char, tail: string, text: string)
    requires c != '%'
    ensures SplitEscapesFrom([c] + tail, text) == SplitEscapesFrom(tail, text + [c])
  {
    var s := [c] + tail;
    assert s[0] == c && s[1..] == tail;
  }

  lemma SplitAtEscape(t: string, tail: string, text: string)
    requires |t| == 3 && EscapeAt(t, 0)
    ensures SplitEscapesFrom(t + tail, text) == [text, t] + SplitEscapesFrom(tail, "")
  {
    var s := t + tail;
    assert EscapeAt(s, 0);
    assert s[..3] == t && s[3..] == tail;
  }

  /** `_urldecode(item)` for an item that starts with `%`. The `+` test in
      the source compares the type `str` with `"+"` and never holds, so
      there is no `+` case. Every leading `%` is stripped, and
      `chr(int(rest, 16))` is returned. A split piece can only leave one or
      two hexadecimal digits here (a `%` followed by two characters of the
      range would have been a match), so those two lengths are the cases
      in which `int` succeeds on hexadecimal digits; anything else is an
      error. */
  function UrlDecodeItem(item: string): (r: Result<string>)
    ensures r.Ok? ==> |r.value| == 1 && r.value[0] as int < 256
    ensures r.Err? ==> r.error == InvalidEscape
    ensures |item| == 3 && EscapeAt(item, 0) ==>
              (r.Ok? <==> IsHexDigit(item[1]) && IsHexDigit(item[2])) &&
              (r.Ok? ==> r.value[0] as int == 16 * HexValue(item[1]) + HexValue(item[2]))
  {
    var rest := LStrip(item, '%');
    LStripTriplet(item);
    if |rest| == 2 && IsHexDigit(rest[0]) && IsHexDigit(rest[1]) then
      Ok([(16 * HexValue(rest[0]) + HexValue(rest[1])) as char])
    else if |rest| == 1 && IsHexDigit(rest[0]) then
      Ok([HexValue(rest[0]) as char])
    else
      Err(InvalidEscape)
  }

  lemma LStripTriplet(item: string)
    ensures |item| == 3 && EscapeAt(item, 0) ==> LStrip(item, '%') == item[1..]
  {
    if |item| == 3 && EscapeAt(item, 0) {
      assert LStrip(item[1..], '%') == item[1..];
    }
  }

  /** The loop body of `decode`: pieces that start with `%` are decoded,
      every other piece is kept. */
  function DecodePiece(p: string): Result<string>
  {
    if |p| > 0 && p[0] == '%' then UrlDecodeItem(p) else Ok(p)
  }

  function Prepend(p: string, r: Result<string>): Result<string>
  {
    if r.Ok? then Ok(p + r.value) else r
  }

  /** Decode the pieces left to right and join them; the first failure wins. */
  function DecodePieces(ps: seq<string>): Result<string>
    decreases |ps|
  {
    if ps == [] then Ok("")
    else
      match DecodePiece(ps[0])
      case Err(e) => Err(e)
      case Ok(d) => Prepend(d, DecodePieces(ps[1..]))
  }

  lemma DecodePiecesCons(p: string, rest: seq<string>)
    ensures DecodePieces([p] + rest) ==
              if DecodePiece(p).Err? then DecodePiece(p)
              else Prepend(DecodePiece(p).value, DecodePieces(rest))
  {
    assert ([p] + rest)[0] == p && ([p] + rest)[1..] == rest;
  }

  lemma DecodePiecesSingle(p: string)
    ensures DecodePieces([p]) == DecodePiece(p)
  {
    DecodePiecesCons(p, []);
    assert [p] + [] == [p];
    if DecodePiece(p).Ok? {
      assert DecodePiece(p).value + "" == DecodePiece(p).value;
    }
  }

  lemma PrependAssoc(a: string, b: string, r: Result<string>)
    ensures Prepend(a, Prepend(b, r)) == Prepend(a + b, r)
  {
    if r.Ok? {
      assert a + (b + r.value) == (a + b) + r.value;
    }
  }

  lemma PrependEmpty(r: Result<string>)
    ensures Prepend("", r) == r
  {
    if r.Ok? {
      assert "" + r.value == r.value;
    }
  }

  /** What `decode(string)` returns: the input itself when it holds neither
      `%` nor `+`, otherwise the decoded pieces of the split, joined. */
  function Decoded(s: string): Result<string>
  {
    if '%' !in s && '+' !in s then Ok(s) else DecodePieces(SplitEscapes(s))
  }

  /** `decode(string)`: split by the escape pattern, rewrite the list of
      pieces in place, then join it. */
  method Decode(s: string) returns (r: Result<string>)
    ensures r == Decoded(s)
  {
    if '%' !in s && '+' !in s {
      return Ok(s);
    }
    var parts := SplitEscapes(s);
    ghost var pieces := parts;
    assert parts[..0] == [] && pieces[0..] == pieces;
    PrependEmpty(DecodePieces(pieces));
    for i := 0 to |parts|
      invariant |parts| == |pieces|
      invariant parts[i..] == pieces[i..]
      invariant DecodePieces(pieces) == Prepend(Concat(parts[..i]), DecodePieces(pieces[i..]))
    {
      var item := parts[i];
      ghost var done := parts[..i];
      assert item == pieces[i];
      assert pieces[i..] == [item] + pieces[i + 1..];
      DecodePiecesCons(item, pieces[i + 1..]);
      if |item| > 0 && item[0] == '%' {
        var d := UrlDecodeItem(item);
        if d.Err? {
          return Err(d.error);
        }
        parts := parts[i := d.value];
      }
      assert parts[..i + 1][..i] == done && parts[..i + 1] == done + [parts[i]];
      assert parts[i + 1..] == pieces[i + 1..];
      PrependAssoc(Concat(done), parts[i], DecodePieces(pieces[i + 1..]));
    }
    assert parts[..|parts|] == parts && pieces[|pieces|..] == [];
    assert Concat(parts) + "" == Concat(parts);
    return Ok(Concat(parts));
  }

  /** The `%`/`+` shortcut at the top of `decode` changes nothing: the
      result is always the decode of the split. */
  lemma DecodedIsPieces(s: string)
    ensures Decoded(s) == DecodePieces(SplitEscapes(s))
  {
    if '%' !in s {
      SplitWithoutPercent(s, "");
      assert "" + s == s;
      DecodePiecesSingle(s);
    }
  }

  /** Text without `%` is returned unchanged; in particular `+` is never
      turned into a space. */
  lemma DecodeWithoutPercent(s: string)
    requires '%' !in s
    ensures Decoded(s) == Ok(s)
  {
    DecodedIsPieces(s);
    SplitWithoutPercent(s, "");
    assert "" + s == s;
    DecodePiecesSingle(s);
  }

  /** A matched triplet `%XY` after `%`-free text: it becomes
      `chr(int(XY, 16))` when X and Y are hexadecimal digits, the rest of
      the input is decoded on its own, and a triplet of the range that is
      not hexadecimal (such as `%:0` or `%G1`) is an error. */
  lemma DecodeEscapeInContext(a: string, x: char, y: char, b: string)
    requires '%' !in a
    requires InEscapeRange(x) && InEscapeRange(y)
    ensures Decoded(a + ['%', x, y] + b) ==
              if IsHexDigit(x) && IsHexDigit(y)
              then Prepend(a + [(16 * HexValue(x) + HexValue(y)) as char], Decoded(b))
              else Err(InvalidEscape)
  {
    var e := ['%', x, y];
    var rest := SplitEscapes(b);
    SplitEscapeInContext(a, e, b);
    DecodedIsPieces(a + e + b);
    DecodedIsPieces(b);
    DecodePiecesCons(a, [e] + rest);
    DecodePiecesCons(e, rest);
    assert DecodePiece(a) == Ok(a);
    if IsHexDigit(x) && IsHexDigit(y) {
      PrependAssoc(a, [(16 * HexValue(x) + HexValue(y)) as char], DecodePieces(rest));
    }
  }

  /** A matched triplet after `%`-free text splits off as the second piece. */
  lemma SplitEscapeInContext(a: string, e: string, b: string)
    requires '%' !in a
    requires |e| == 3 && EscapeAt(e, 0)
    ensures SplitEscapes(a + e + b) == [a] + ([e] + SplitEscapes(b))
  {
    assert a + e + b == a + (e + b);
    SplitPrefixWithoutPercent(a, e + b, "");
    assert "" + a == a;
    SplitAtEscape(e, b, a);
    assert [a, e] + SplitEscapes(b) == [a] + ([e] + SplitEscapes(b));
  }

  lemma {:induction false} SplitPrefixWithoutPercent(a: string, t: string, text: string)
    requires '%' !in a
    ensures SplitEscapesFrom(a + t, text) == SplitEscapesFrom(t, text + a)
    decreases |a|
  {
    if a != [] {
      var s := a + t;
      assert s[0] == a[0] && s[0] != '%';
      assert s[1..] == a[1..] + t;
      assert '%' !in a[1..];
      SplitPrefixWithoutPercent(a[1..], t, text + [a[0]]);
      assert text + [a[0]] + a[1..] == text + a;
    } else {
      assert a + t == t && text + a == text;
    }
  }

  /** An escaped byte forms one matched triplet that decodes back to it. */
  lemma EscapedByteDecodes(b: byte)
    requires !IsUnreserved(b)
    ensures |Latin1String(EncodeByte(b))| == 3 && EscapeAt(Latin1String(EncodeByte(b)), 0)
    ensures UrlDecodeItem(Latin1String(EncodeByte(b))) == Ok([b as int as char])
  {
    var t := Latin1String(EncodeByte(b));
    assert InEscapeRange(t[1]) && InEscapeRange(t[2]);
  }

  /** The encoded form of a non-empty byte string, as text: the encoding
      of its first byte, then that of the rest. */
  lemma EncodedTextCons(bs: seq<byte>)
    requires bs != []
    ensures Latin1String(Encode(bs)) == Latin1String(EncodeByte(bs[0])) + Latin1String(Encode(bs[1..]))
    ensures Latin1String(bs) == [bs[0] as int as char] + Latin1String(bs[1..])
  {
    assert Latin1String(Encode(bs)) == Latin1String(EncodeByte(bs[0])) + Latin1String(Encode(bs[1..])) by {
      Latin1StringConcat(EncodeByte(bs[0]), Encode(bs[1..]));
    }
    Latin1Cons(bs);
  }

  lemma Latin1Cons(bs: seq<byte>)
    requires bs != []
    ensures Latin1String(bs) == [bs[0] as int as char] + Latin1String(bs[1..])
  {
    assert bs == [bs[0]] + bs[1..];
    Latin1StringConcat([bs[0]], bs[1..]);
  }

  lemma PlainStep(b: byte, tail: string, text: string, rest: string)
    requires IsUnreserved(b) && '%' !in text
    requires DecodePieces(SplitEscapesFrom(tail, text + [b as int as char])) == Ok(text + [b as int as char] + rest)
    ensures DecodePieces(SplitEscapesFrom(Latin1String(EncodeByte(b)) + tail, text)) ==
            Ok(text + ([b as int as char] + rest))
  {
    var c := b as int as char;
    assert Latin1String(EncodeByte(b)) == [c] && c != '%';
    SplitAtPlain(c, tail, text);
    assert text + [c] + rest == text + ([c] + rest);
  }

  /** An unmatched stretch, then a triplet that decodes to `c`, then
      pieces that decode to `rest`. */
  lemma DecodeTextThenEscape(text: string, t: string, c: char, ps: seq<string>, rest: string)
    requires '%' !in text && |t| == 3 && t[0] == '%' && UrlDecodeItem(t) == Ok([c])
    requires DecodePieces(ps) == Ok(rest)
    ensures DecodePieces([text, t] + ps) == Ok(text + ([c] + rest))
  {
    assert [text, t] + ps == [text] + ([t] + ps);
    DecodePiecesCons(t, ps);
    DecodePiecesCons(text, [t] + ps);
    assert DecodePiece(text) == Ok(text) by {
      if |text| > 0 {
        assert text[0] in text;
      }
    }
  }

  lemma EscapeStep(b: byte, tail: string, text: string, rest: string)
    requires !IsUnreserved(b) && '%' !in text
    requires DecodePieces(SplitEscapesFrom(tail, "")) == Ok("" + rest)
    ensures DecodePieces(SplitEscapesFrom(Latin1String(EncodeByte(b)) + tail, text)) ==
            Ok(text + ([b as int as char] + rest))
  {
    var t := Latin1String(EncodeByte(b));
    EscapedByteDecodes(b);
    SplitAtEscape(t, tail, text);
    assert "" + rest == rest;
    DecodeTextThenEscape(text, t, b as int as char, SplitEscapesFrom(tail, ""), rest);
  }

  /** Decoding the encoded bytes, from any point of an unmatched stretch
      `text`, yields `text` followed by the original characters. */
  lemma {:induction false} EncodedPiecesDecode(bs: seq<byte>, text: string)
    requires '%' !in text
    ensures DecodePieces(SplitEscapesFrom(Latin1String(Encode(bs)), text)) == Ok(text + Latin1String(bs))
    decreases |bs|
  {
    if bs == [] {
      assert Latin1String(Encode(bs)) == "" && Latin1String(bs) == "" && text + "" == text;
      DecodePiecesSingle(text);
    } else {
      var b := bs[0];
      EncodedTextCons(bs);
      if IsUnreserved(b) {
        EncodedPiecesDecode(bs[1..], text + [b as int as char]);
        PlainStep(b, Latin1String(Encode(bs[1..])), text, Latin1String(bs[1..]));
      } else {
        EncodedPiecesDecode(bs[1..], "");
        EscapeStep(b, Latin1String(Encode(bs[1..])), text, Latin1String(bs[1..]));
      }
    }
  }

  /** Round trip on bytes: `decode(encode(b)) == to_string(b)`. */
  lemma EncodeDecodeBytes(bs: seq<byte>)
    ensures Decoded(Latin1String(Encode(bs))) == Ok(Latin1String(bs))
  {
    DecodedIsPieces(Latin1String(Encode(bs)));
    EncodedPiecesDecode(bs, "");
    assert "" + Latin1String(bs) == Latin1String(bs);
  }

  /** Round trip on text: `decode(to_string(encode(s))) == s` for every
      Latin-1 string. */
  lemma EncodeDecodeRoundTrip(s: string)
    requires IsLatin1(s)
    ensures Decoded(Latin1String(EncodeText(s))) == Ok(s)
  {
    EncodeDecodeBytes(Latin1Bytes(s));
    Latin1RoundTrip(s);
  }

  // ---------------------------------------------------------------------
  // parse_query_string

  type QueryMap = map<string, string>

  /** The loop of `parse_query_string` from the dictionary `acc` on: a
      pair without `=` is skipped, a pair with more than one `=` is an
      error, and otherwise the stripped value and key are decoded (the
      value first, as Python evaluates `kv[k] = v`) and stored, replacing
      any earlier entry for the key. */
  function AddPairs(acc: QueryMap, items: seq<string>): Result<QueryMap>
    decreases |items|
  {
    if items == [] then Ok(acc)
    else
      var kv := Split(items[0], '=');
      if |kv| == 1 then AddPairs(acc, items[1..])
      else if |kv| != 2 then Err(BadQueryField)
      else
        match Decoded(Strip(kv[1]))
        case Err(e) => Err(e)
        case Ok(value) =>
          match Decoded(Strip(kv[0]))
          case Err(e) => Err(e)
          case Ok(key) => AddPairs(acc[key := value], items[1..])
  }

  /** What `parse_query_string(query)` returns. */
  function ParseQuery(query: string): Result<QueryMap>
  {
    AddPairs(map[], Split(query, '&'))
  }

  /** `parse_query_string(query)`: split on `&`, then fill the dictionary
      pair by pair. */
  method ParseQueryString(query: string) returns (r: Result<QueryMap>)
    ensures r == ParseQuery(query)
  {
    var pairs := Split(query, '&');
    var kv: QueryMap := map[];
    assert pairs[0..] == pairs;
    for i := 0 to |pairs|
      invariant AddPairs(map[], pairs) == AddPairs(kv, pairs[i..])
    {
      assert pairs[i..][0] == pairs[i] && pairs[i..][1..] == pairs[i + 1..];
      var keyValue := Split(pairs[i], '=');
      if |keyValue| == 1 {
        // skip empty query string
      } else if |keyValue| != 2 {
        return Err(BadQueryField);
      } else {
        var value := Decode(Strip(keyValue[1]));
        if value.Err? {
          return Err(value.error);
        }
        var key := Decode(Strip(keyValue[0]));
        if key.Err? {
          return Err(key.error);
        }
        kv := kv[key.value := value.value];
      }
    }
    return Ok(kv);
  }

  /** Folding over two runs of pairs is folding over the first, then the
      second. */
  lemma {:induction false} AddPairsAppend(acc: QueryMap, xs: seq<string>, ys: seq<string>)
    ensures AddPairs(acc, xs + ys) ==
              if AddPairs(acc, xs).Err? then AddPairs(acc, xs) else AddPairs(AddPairs(acc, xs).value, ys)
    decreases |xs|
  {
    if xs == [] {
      assert xs + ys == ys;
    } else {
      assert (xs + ys)[0] == xs[0] && (xs + ys)[1..] == xs[1..] + ys;
      var kv := Split(xs[0], '=');
      if |kv| == 1 {
        AddPairsAppend(acc, xs[1..], ys);
      } else if |kv| == 2 && Decoded(Strip(kv[1])).Ok? && Decoded(Strip(kv[0])).Ok? {
        AddPairsAppend(acc[Decoded(Strip(kv[0])).value := Decoded(Strip(kv[1])).value], xs[1..], ys);
      }
    }
  }

  /** The empty query string gives the empty dictionary. */
  lemma QueryEmpty()
    ensures ParseQuery("") == Ok(map[])
  {
    assert Split("", '&') == [""];
    assert Split("", '=') == [""];
  }

  /** Appending one more `&`-separated pair continues the fold from the
      dictionary built so far. */
  lemma QueryAppendPair(query: string, item: string)
    requires '&' !in item
    ensures ParseQuery(query + "&" + item) ==
              if ParseQuery(query).Err? then ParseQuery(query) else AddPairs(ParseQuery(query).value, [item])
  {
    SplitAround(query, item, '&');
    assert query + "&" + item == query + ['&'] + item;
    SplitNoSeparator(item, '&');
    AddPairsAppend(map[], Split(query, '&'), [item]);
  }

  /** A trailing pair without `=` is dropped. */
  lemma QueryDropsBarePair(query: string, item: string)
    requires '&' !in item && '=' !in item
    ensures ParseQuery(query + "&" + item) == ParseQuery(query)
  {
    QueryAppendPair(query, item);
    SplitNoSeparator(item, '=');
  }

  /** `k=v` with neither part holding `=` or `&` is one pair of two pieces. */
  lemma PairPieces(k: string, v: string)
    requires '&' !in k && '=' !in k && '&' !in v && '=' !in v
    ensures '&' !in k + "=" + v
    ensures Split(k + "=" + v, '=') == [k, v]
  {
    assert k + "=" + v == k + ['='] + v;
    SplitAround(k, v, '=');
    SplitNoSeparator(k, '=');
    SplitNoSeparator(v, '=');
  }

  /** One pair of two pieces whose stripped parts decode is stored. */
  lemma AddOnePair(acc: QueryMap, item: string, k: string, v: string, key: string, value: string)
    requires Split(item, '=') == [k, v]
    requires Decoded(Strip(k)) == Ok(key) && Decoded(Strip(v)) == Ok(value)
    ensures AddPairs(acc, [item]) == Ok(acc[key := value])
  {
    assert [item][1..] == [];
  }

  /** Keys and values are stripped and then decoded; a later pair for the
      same decoded key overwrites the earlier one. */
  lemma QueryLaterPairWins(query: string, k: string, v: string, m: QueryMap, key: string, value: string)
    requires '&' !in k && '=' !in k && '&' !in v && '=' !in v
    requires ParseQuery(query) == Ok(m)
    requires Decoded(Strip(k)) == Ok(key) && Decoded(Strip(v)) == Ok(value)
    ensures ParseQuery(query + "&" + k + "=" + v) == Ok(m[key := value])
  {
    var item := k + "=" + v;
    assert query + "&" + k + "=" + v == query + "&" + item;
    PairPieces(k, v);
    QueryAppendPair(query, item);
    AddOnePair(m, item, k, v, key, value);
  }

  /** A single pair: `parse_query_string(k=v)` maps the decoded, stripped
      key to the decoded, stripped value. */
  lemma QuerySinglePair(k: string, v: string, key: string, value: string)
    requires '&' !in k && '=' !in k && '&' !in v && '=' !in v
    requires Decoded(Strip(k)) == Ok(key) && Decoded(Strip(v)) == Ok(value)
    ensures ParseQuery(k + "=" + v) == Ok(map[key := value])
  {
    var item := k + "=" + v;
    PairPieces(k, v);
    SplitNoSeparator(item, '&');
    AddOnePair(map[], item, k, v, key, value);
  }

  /** A pair with more than one `=` makes the whole parse fail, wherever
      it stands. */
  lemma {:induction false} AddPairsRejectsExtraEquals(acc: QueryMap, items: seq<string>, i: nat)
    requires i < |items| && |Split(items[i], '=')| > 2
    ensures AddPairs(acc, items).Err?
    decreases |items|
  {
    var kv := Split(items[0], '=');
    if i > 0 {
      assert items[1..][i - 1] == items[i];
      if |kv| == 1 {
        AddPairsRejectsExtraEquals(acc, items[1..], i - 1);
      } else if |kv| == 2 && Decoded(Strip(kv[1])).Ok? && Decoded(Strip(kv[0])).Ok? {
        AddPairsRejectsExtraEquals(acc[Decoded(Strip(kv[0])).value := Decoded(Strip(kv[1])).value], items[1..], i - 1);
      }
    }
  }

  lemma QueryRejectsExtraEquals(query: string, i: nat)
    requires i < |Split(query, '&')| && Count(Split(query, '&')[i], '=') >= 2
    ensures ParseQuery(query).Err?
  {
    SplitLength(Split(query, '&')[i], '=');
    AddPairsRejectsExtraEquals(map[], Split(query, '&'), i);
  }

  // ---------------------------------------------------------------------
  // parse_path_info

  /** `parse_path_info(string)`: strip every leading `/`, decode, then split
      on `/`. Decoding happens before splitting, so an encoded `%2F` acts
      as a separator. */
  function ParsePathInfo(s: string): (r: Result<seq<string>>)
    ensures r.Ok? ==> |r.value| >= 1
  {
    match Decoded(LStrip(s, '/'))
    case Err(e) => Err(e)
    case Ok(d) => Ok(Split(d, '/'))
  }

  /** `""` and `"/"` both give one empty segment, and any number of
      leading slashes is the same as none. */
  lemma PathInfoRoot(s: string)
    ensures ParsePathInfo("") == Ok([""]) && ParsePathInfo("/") == Ok([""])
    ensures ParsePathInfo("/" + s) == ParsePathInfo(s)
  {
    assert LStrip("/", '/') == LStrip("", '/');
    var t := "/" + s;
    assert t[0] == '/' && t[1..] == s;
  }

  /** Without escapes, the segments are the text after the leading slashes,
      cut at each `/`: joining them with `/` gives that text back. */
  lemma PathInfoSegments(s: string)
    requires '%' !in s
    ensures ParsePathInfo(s).Ok?
    ensures Join(ParsePathInfo(s).value, '/') == LStrip(s, '/')
  {
    LStripSlice(s, '/');
    assert '%' !in LStrip(s, '/');
    DecodeWithoutPercent(LStrip(s, '/'));
    JoinSplit(LStrip(s, '/'), '/');
  }

  /** A decoded `%2F` splits segments just as a literal `/` would. */
  lemma PathInfoEncodedSlash(a: string, b: string)
    requires '%' !in a && '%' !in b
    requires a == [] || a[0] != '/'
    ensures ParsePathInfo(a + "%2F" + b) == Ok(Split(a, '/') + Split(b, '/'))
  {
    var s := a + "%2F" + b;
    assert s == a + ['%', '2', 'F'] + b;
    assert LStrip(s, '/') == s by {
      if a == [] {
        assert s[0] == '%';
      } else {
        assert s[0] == a[0];
      }
    }
    DecodeEscapeInContext(a, '2', 'F', b);
    DecodeWithoutPercent(b);
    assert (16 * HexValue('2') + HexValue('F')) as char == '/';
    SplitAround(a, b, '/');
  }

  // ---------------------------------------------------------------------
  // parse_host

  /** Host name and optional port, as `parse_host` returns them. */
  datatype HostPort = HostPort(host: string, port: Option<nat>)

  /** Index of the last occurrence of `c`. */
  function LastIndexOf(s: string, c: char): (r: Option<nat>)
    ensures r.None? <==> c !in s
    ensures r.Some? ==> r.value < |s| && s[r.value] == c &&
                        forall j :: r.value < j < |s| ==> s[j] != c
    decreases |s|
  {
    if s == [] then None
    else if s[|s| - 1] == c then Some(|s| - 1)
    else
      var r := LastIndexOf(s[..|s| - 1], c);
      assert r.None? ==> s == s[..|s| - 1] + [s[|s| - 1]];
      r
  }

  /** `parse_host(host)`: a full match of `(.*):([0-9]*)`. The greedy group
      ends at the last colon, so the input matches exactly when everything
      after its last colon is ASCII digits. On a match the host is the text
      before that colon, and the port is the digits' value, or absent when
      there are none; without a match the input is returned whole. */
  function ParseHost(s: string): (r: HostPort)
    ensures |r.host| <= |s| && s[..|r.host|] == r.host
    ensures r.host != s ==> s[|r.host|] == ':' && AllDigits(s[|r.host| + 1..])
    ensures r.port.Some? <==> r.host != s && |r.host| + 1 < |s|
    ensures r.port.Some? ==> r.port.value == DecimalValue(s[|r.host| + 1..])
  {
    match LastIndexOf(s, ':')
    case None => HostPort(s, None)
    case Some(i) =>
      if !AllDigits(s[i + 1..]) then HostPort(s, None)
      else if i + 1 == |s| then HostPort(s[..i], None)
      else HostPort(s[..i], Some(DecimalValue(s[i + 1..])))
  }

  /** The last `c` of `a + [c] + b`, when `b` holds none, is the one
      after `a`. */
  lemma {:induction false} LastIndexOfAfter(a: string, c: char, b: string)
    requires c !in b
    ensures LastIndexOf(a + [c] + b, c) == Some(|a|)
    decreases |b|
  {
    var s := a + [c] + b;
    if b != [] {
      var b' := b[..|b| - 1];
      assert s[..|s| - 1] == a + [c] + b';
      assert s[|s| - 1] == b[|b| - 1];
      assert c !in b';
      LastIndexOfAfter(a, c, b');
    }
  }

  lemma LastColonBeforeDigits(h: string, d: string)
    requires AllDigits(d)
    ensures LastIndexOf(h + ":" + d, ':') == Some(|h|)
  {
    assert ':' !in d by {
      forall j | 0 <= j < |d|
        ensures d[j] != ':'
      {
        assert IsDigit(d[j]);
      }
    }
    assert h + ":" + d == h + [':'] + d;
    LastIndexOfAfter(h, ':', d);
  }

  /** `parse_host(h + ":" + digits)` is `(h, int(digits))`, whatever `h`
      holds, colons included. */
  lemma ParseHostWithPort(h: string, d: string)
    requires AllDigits(d) && d != []
    ensures ParseHost(h + ":" + d) == HostPort(h, Some(DecimalValue(d)))
  {
    LastColonBeforeDigits(h, d);
    var s := h + ":" + d;
    assert s[|h| + 1..] == d && s[..|h|] == h;
  }

  /** An empty port after the colon: the host part is returned, the port
      is absent. */
  lemma ParseHostEmptyPort(h: string)
    ensures ParseHost(h + ":") == HostPort(h, None)
  {
    LastColonBeforeDigits(h, "");
    assert h + ":" == h + ":" + "";
    var s := h + ":";
    assert s[..|h|] == h;
  }

  /** Together with `str(port)`: `parse_host(h + ":" + str(p)) == (h, p)`. */
  lemma ParseHostRoundTrip(h: string, p: nat)
    ensures ParseHost(h + ":" + DecimalString(p)) == HostPort(h, Some(p))
  {
    ParseHostWithPort(h, DecimalString(p));
    DecimalRoundTrip(p);
  }

  /** The input comes back whole, with no port, exactly when no colon is
      followed by nothing but digits. */
  lemma ParseHostUnchanged(s: string)
    ensures ParseHost(s).host == s <==>
              forall i :: 0 <= i < |s| && s[i] == ':' ==> !AllDigits(s[i + 1..])
    ensures ParseHost(s).host == s ==> ParseHost(s).port == None
  {
    match LastIndexOf(s, ':')
    case None =>
    case Some(i) =>
      if AllDigits(s[i + 1..]) {
        assert |s[..i]| < |s|;
      } else {
        forall j | 0 <= j < |s| && s[j] == ':'
          ensures !AllDigits(s[j + 1..])
        {
          if j < i {
            assert s[j + 1..][i - j - 1] == ':';
          }
        }
      }
  }

  lemma ParseHostExample()
    ensures ParseHost("h:8080") == HostPort("h", Some(8080))
    ensures ParseHost("h:") == HostPort("h", None)
  {
    ParseHostPortExample();
    ParseHostEmptyExample();
  }

  lemma ParseHostPortExample()
    ensures ParseHost("h:8080") == HostPort("h", Some(8080))
  {
    Spell8080();
    assert "h:8080" == "h" + ":" + DecimalString(8080);
    ParseHostRoundTrip("h", 8080);
  }

  lemma ParseHostEmptyExample()
    ensures ParseHost("h:") == HostPort("h", None)
  {
    assert "h:" == "h" + ":";
    ParseHostEmptyPort("h");
  }

  lemma Spell8080()
    ensures DecimalString(8080) == "8080"
  {
    assert DecimalString(8) == "8";
    assert DecimalString(80) == "80";
    assert DecimalString(808) == "808";
  }
}
