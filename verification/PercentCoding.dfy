/** Percent-encoding (section 2.1 of RFC 3986): the two encoders of src/nquad.rs and the
    decoder of src/extraction.rs. */
module PercentCoding {
  import opened Wrappers
  import opened Utf8
  import T = Text

  const PERCENT: Byte := 0x25

  function HexValue(b: Byte): (r: Option<int>)
    ensures r.Some? ==> 0 <= r.value < 16 && b < 0x80 && b != PERCENT
  {
    if 0x30 <= b <= 0x39 then Some(b - 0x30)
    else if 0x41 <= b <= 0x46 then Some(b - 0x37)
    else if 0x61 <= b <= 0x66 then Some(b - 0x57)
    else None
  }

  /** `u8::from_str_radix(_, 16)` on two bytes: two hex digits, or a `+` sign and one. */
  function HexPair(hi: Byte, lo: Byte): (r: Option<Byte>)
    ensures r.Some? ==> HexValue(lo).Some? && (HexValue(hi).Some? || hi == 0x2B)
  {
    match (HexValue(hi), HexValue(lo))
    case (Some(h), Some(l)) => Some(h * 16 + l)
    case (None, Some(l)) => if hi == 0x2B then Some(l) else None
    case (_, None) => None
  }

  /** An escape stands at the front. */
  predicate OpensEscape(b: seq<Byte>) {
    |b| > 2 && b[0] == PERCENT && HexPair(b[1], b[2]).Some?
  }

  function DecodeBytes(b: seq<Byte>): seq<Byte> {
    if b == [] then []
    else if OpensEscape(b) then [HexPair(b[1], b[2]).value] + DecodeBytes(b[3..])
    else [b[0]] + DecodeBytes(b[1..])
  }

  function Decoded(s: string): string {
    Lossy(DecodeBytes(Bytes(s)))
  }

  /** One step of the decoding loop at index `i`. */
  lemma DecodeAt(b: seq<Byte>, i: nat)
    requires i < |b|
    ensures if b[i] == PERCENT && i + 2 < |b| && HexPair(b[i + 1], b[i + 2]).Some?
      then DecodeBytes(b[i..]) == [HexPair(b[i + 1], b[i + 2]).value] + DecodeBytes(b[i + 3..])
      else DecodeBytes(b[i..]) == [b[i]] + DecodeBytes(b[i + 1..])
  {
    var rest := b[i..];
    assert rest[1..] == b[i + 1..];
    if i + 2 < |b| {
      assert rest[1] == b[i + 1] && rest[2] == b[i + 2] && rest[3..] == b[i + 3..];
    }
  }

  lemma Shift<T>(a: seq<T>, b: seq<T>, c: seq<T>)
    ensures a + (b + c) == (a + b) + c
  {
  }

  /** `percent_decode`: one pass over the bytes into a buffer. */
  method PercentDecode(s: string) returns (r: string)
    ensures r == Decoded(s)
  {
    var bytes := Bytes(s);
    var out: seq<Byte> := [];
    var i := 0;
    assert bytes[0..] == bytes;
    while i < |bytes|
      invariant 0 <= i <= |bytes|
      invariant out + DecodeBytes(bytes[i..]) == DecodeBytes(bytes)
    {
      DecodeAt(bytes, i);
      if bytes[i] == PERCENT && i + 2 < |bytes| && HexPair(bytes[i + 1], bytes[i + 2]).Some? {
        var v := HexPair(bytes[i + 1], bytes[i + 2]).value;
        Shift(out, [v], DecodeBytes(bytes[i + 3..]));
        out := out + [v];
        i := i + 3;
        continue;
      }
      Shift(out, [bytes[i]], DecodeBytes(bytes[i + 1..]));
      out := out + [bytes[i]];
      i := i + 1;
    }
    assert bytes[i..] == [] && out + [] == out;
    r := Lossy(out);
  }

  function UpperHex(n: int): char
    requires 0 <= n < 16
  {
    "0123456789ABCDEF"[n]
  }

  function Escape(b: Byte): string {
    ['%', UpperHex(b / 16), UpperHex(b % 16)]
  }

  function EscapeAll(b: seq<Byte>): string {
    if b == [] then "" else Escape(b[0]) + EscapeAll(b[1..])
  }

  /** The characters of `push_uri_encoded`'s table. */
  predicate InTable(c: char) {
    c in {'%', '"', '\\', ' ', '<', '>', '{', '}', '|', '^', '`', '[', ']'}
  }

  /** `push_uri_encoded` */
  function EncodeChar(c: char): string {
    if InTable(c) || c >= '\U{80}' then EscapeAll(Encode(c)) else [c]
  }

  function EncodedPath(s: string): string {
    if s == "" then "" else EncodeChar(s[0]) + EncodedPath(s[1..])
  }

  method UriEncodePath(s: string) returns (out: string)
    ensures out == EncodedPath(s)
  {
    out := "";
    for i := 0 to |s|
      invariant out + EncodedPath(s[i..]) == EncodedPath(s)
    {
      assert s[i..][1..] == s[i + 1..];
      Shift(out, EncodeChar(s[i]), EncodedPath(s[i + 1..]));
      out := out + EncodeChar(s[i]);
    }
  }

  // ----- the round trip -----

  lemma EscapeBytes(b: Byte)
    ensures Bytes(Escape(b)) == [PERCENT, UpperHex(b / 16) as int, UpperHex(b % 16) as int]
  {
    var hi, lo := UpperHex(b / 16), UpperHex(b % 16);
    var e := Escape(b);
    assert e[1..] == [hi, lo] && e[1..][1..] == [lo] && e[1..][1..][1..] == "";
    assert Bytes([lo]) == [lo as int];
    assert Bytes([hi, lo]) == [hi as int] + Bytes([lo]);
  }

  lemma UpperHexValue(n: int)
    requires 0 <= n < 16
    ensures 0 <= UpperHex(n) as int < 128 && HexValue(UpperHex(n) as int) == Some(n)
  {
  }

  lemma EscapeDecodes(b: Byte, rest: seq<Byte>)
    ensures DecodeBytes(Bytes(Escape(b)) + rest) == [b] + DecodeBytes(rest)
  {
    hide Bytes, Escape, UpperHex, HexValue;
    EscapeBytes(b);
    UpperHexValue(b / 16);
    UpperHexValue(b % 16);
    var hi, lo := UpperHex(b / 16) as int, UpperHex(b % 16) as int;
    assert HexPair(hi, lo) == Some(b);
    var e := [PERCENT, hi, lo] + rest;
    assert OpensEscape(e) && e[3..] == rest;
  }

  lemma {:induction false} EscapeAllDecodes(b: seq<Byte>, rest: seq<Byte>)
    ensures DecodeBytes(Bytes(EscapeAll(b)) + rest) == b + DecodeBytes(rest)
  {
    hide DecodeBytes, Bytes, Escape;
    if b == [] {
      assert Bytes(EscapeAll(b)) + rest == rest by { BytesNil(); }
    } else {
      BytesConcat(Escape(b[0]), EscapeAll(b[1..]));
      Shift(Bytes(Escape(b[0])), Bytes(EscapeAll(b[1..])), rest);
      EscapeDecodes(b[0], Bytes(EscapeAll(b[1..])) + rest);
      EscapeAllDecodes(b[1..], rest);
      Shift([b[0]], b[1..], DecodeBytes(rest));
    }
  }

  lemma BytesNil()
    ensures Bytes("") == []
  {
  }

  lemma EncodeCharDecodes(c: char, rest: seq<Byte>)
    ensures DecodeBytes(Bytes(EncodeChar(c)) + rest) == Encode(c) + DecodeBytes(rest)
  {
    if InTable(c) || c >= '\U{80}' {
      EscapeAllDecodes(Encode(c), rest);
    } else {
      assert Bytes([c]) == [c as int];
      assert ([c as int] + rest)[1..] == rest;
    }
  }

  lemma {:induction false} EncodedPathDecodes(s: string)
    ensures DecodeBytes(Bytes(EncodedPath(s))) == Bytes(s)
  {
    if s != "" {
      BytesConcat(EncodeChar(s[0]), EncodedPath(s[1..]));
      EncodeCharDecodes(s[0], Bytes(EncodedPath(s[1..])));
      EncodedPathDecodes(s[1..]);
    }
  }

  /** For every Unicode string: what the encoder writes, the decoder reads back. */
  lemma DecodeEncode(s: string)
    ensures Decoded(EncodedPath(s)) == s
  {
    EncodedPathDecodes(s);
    LossyBytes(s);
  }

  const FILE_BASE := "https://repolex.ai/git-lex/File/"

  function FileIri(path: string): string {
    FILE_BASE + EncodedPath(path)
  }

  /** Distinct paths never share a File IRI. */
  lemma FileIriInjective(p: string, q: string)
    requires FileIri(p) == FileIri(q)
    ensures p == q
  {
    assert FileIri(p)[|FILE_BASE|..] == EncodedPath(p);
    assert FileIri(q)[|FILE_BASE|..] == EncodedPath(q);
    DecodeEncode(p);
    DecodeEncode(q);
  }

  // ----- what the encoders write -----

  /** The characters allowed inside `<...>` by the IRIREF production of N-Quads. */
  predicate IriSafe(c: char) {
    c > ' ' && c !in {'<', '>', '"', '{', '}', '|', '^', '`', '\\'}
  }

  predicate AllIriSafe(s: string) {
    forall c <- s :: IriSafe(c)
  }

  predicate IsControl(c: char) {
    c < ' '
  }

  lemma {:induction false} EscapeAllSafe(b: seq<Byte>)
    ensures AllIriSafe(EscapeAll(b))
  {
    if b != [] {
      EscapeAllSafe(b[1..]);
    }
  }

  lemma EncodeCharSafe(c: char)
    ensures AllIriSafe(EncodeChar(c)) <==> !IsControl(c)
  {
    if InTable(c) || c >= '\U{80}' {
      EscapeAllSafe(Encode(c));
    } else {
      assert c in EncodeChar(c);
    }
  }

  lemma AllIriSafeConcat(s: string, t: string)
    ensures AllIriSafe(s + t) <==> AllIriSafe(s) && AllIriSafe(t)
  {
    assert forall c <- s :: c in s + t;
    assert forall c <- t :: c in s + t;
  }

  /** The path encoder's output may stand inside an IRI exactly when the path holds no control
      character: those are the only unsafe characters the table lets through. */
  lemma {:induction false} EncodedPathSafe(s: string)
    ensures AllIriSafe(EncodedPath(s)) <==> forall c <- s :: !IsControl(c)
  {
    if s != "" {
      EncodedPathSafe(s[1..]);
      EncodeCharSafe(s[0]);
      AllIriSafeConcat(EncodeChar(s[0]), EncodedPath(s[1..]));
      assert forall c <- s :: c == s[0] || c in s[1..];
    }
  }

  // ----- which characters are encoded, and how -----

  /** An ASCII character of RFC 3986, or a control character, but not `%` and not a square bracket: all that
      IRIREF allows but those three, and what the encoders let through although it does not. */
  predicate StandsForItself(c: char) {
    c < '\U{80}' && (IsControl(c) || (IriSafe(c) && c !in {'%', '[', ']'}))
  }

  lemma EncodeCharIff(c: char)
    ensures StandsForItself(c) ==> EncodeChar(c) == [c]
    ensures !StandsForItself(c) ==> |EncodeChar(c)| >= 3 && EncodeChar(c)[0] == '%'
  {
    if !StandsForItself(c) {
      assert Encode(c) != [];
      assert EncodeChar(c) == Escape(Encode(c)[0]) + EscapeAll(Encode(c)[1..]);
    }
  }

  lemma {:induction false} EncodedPathGrows(s: string)
    ensures |EncodedPath(s)| >= |s|
    ensures (exists c <- s :: !StandsForItself(c)) ==> |EncodedPath(s)| > |s|
    ensures (forall c <- s :: StandsForItself(c)) ==> EncodedPath(s) == s
  {
    hide EncodeChar, StandsForItself;
    if s != "" {
      assert s == [s[0]] + s[1..];
      EncodedPathGrows(s[1..]);
      EncodeCharIff(s[0]);
    }
  }

  /** A path is left as it is exactly when each of its characters stands for itself: the slash does, and letters,
      digits and the marks of RFC 3986; a space, a quote, a bracket, `%` and anything outside ASCII do not. */
  lemma EncodedPathSame(s: string)
    ensures EncodedPath(s) == s <==> forall c <- s :: StandsForItself(c)
  {
    EncodedPathGrows(s);
  }

  /** Encoding goes character by character: what stands around a character does not matter. */
  lemma {:induction false} EncodedPathConcat(a: string, b: string)
    ensures EncodedPath(a + b) == EncodedPath(a) + EncodedPath(b)
  {
    hide EncodeChar;
    if a == "" {
      assert a + b == b;
    } else {
      assert (a + b)[1..] == a[1..] + b;
      EncodedPathConcat(a[1..], b);
      Shift(EncodeChar(a[0]), EncodedPath(a[1..]), EncodedPath(b));
    }
  }

  function EncodedAll(parts: seq<string>): seq<string> {
    seq(|parts|, i requires 0 <= i < |parts| => EncodedPath(parts[i]))
  }

  lemma {:induction false} NoSlashMade(s: string)
    requires '/' !in s
    ensures '/' !in EncodedPath(s)
  {
    hide EncodeChar;
    if s != "" {
      NoSlashMade(s[1..]);
      NoSlashInChar(s[0]);
      assert s[0] in s;
    }
  }

  lemma NoSlashInChar(c: char)
    requires c != '/'
    ensures '/' !in EncodeChar(c)
  {
    if InTable(c) || c >= '\U{80}' {
      NoSlashInEscapes(Encode(c));
    }
  }

  lemma {:induction false} NoSlashInEscapes(b: seq<Byte>)
    ensures '/' !in EscapeAll(b)
  {
    if b != [] {
      NoSlashInEscapes(b[1..]);
    }
  }

  lemma EncodedAtSlash(first: string, rest: string)
    ensures EncodedPath(first + ['/'] + rest) == EncodedPath(first) + ['/'] + EncodedPath(rest)
  {
    hide EncodedPath;
    EncodedPathConcat(first + ['/'], rest);
    EncodedPathConcat(first, ['/']);
    EncodedPathSame(['/']);
  }

  lemma EncodedAllFirst(first: string, rest: seq<string>)
    ensures EncodedAll([first] + rest) == [EncodedPath(first)] + EncodedAll(rest)
    ensures EncodedAll([first]) == [EncodedPath(first)]
  {
  }

  /** The segments of an encoded path are the encoded segments of the path. */
  lemma {:induction false} EncodedSegments(s: string)
    ensures T.Split(EncodedPath(s), '/') == EncodedAll(T.Split(s, '/'))
    decreases |s|
  {
    hide EncodedPath, EncodedAll, T.Split, T.IndexOf;
    if '/' in s {
      var i := T.IndexOf(s, '/');
      T.SplitStep(s, '/');
      EncodedSegments(s[i + 1..]);
      NoSlashMade(s[..i]);
      EncodedAtSlash(s[..i], s[i + 1..]);
      T.SplitFirst(EncodedPath(s[..i]), '/', EncodedPath(s[i + 1..]));
      EncodedAllFirst(s[..i], T.Split(s[i + 1..], '/'));
    } else {
      NoSlashMade(s);
      T.NothingToSplit(s, '/');
      T.NothingToSplit(EncodedPath(s), '/');
      EncodedAllFirst(s, []);
    }
  }

  /** The table of the source, escape by escape. */
  lemma EncodedTable()
    ensures EncodedPath("%") == "%25" && EncodedPath("\"") == "%22" && EncodedPath("\\") == "%5C"
    ensures EncodedPath(" ") == "%20" && EncodedPath("<") == "%3C" && EncodedPath(">") == "%3E"
    ensures EncodedPath("{") == "%7B" && EncodedPath("}") == "%7D"
    ensures EncodedPath("|") == "%7C" && EncodedPath("^") == "%5E" && EncodedPath("`") == "%60"
    ensures EncodedPath("[") == "%5B" && EncodedPath("]") == "%5D"
  {
    hide EncodedPath;
    OneEscape('%');
    OneEscape('"');
    OneEscape('\\');
    OneEscape(' ');
    OneEscape('<');
    OneEscape('>');
    OneEscape('{');
    OneEscape('}');
    OneEscape('|');
    OneEscape('^');
    OneEscape('`');
    OneEscape('[');
    OneEscape(']');
  }

  lemma OneEscape(c: char)
    requires c < '\U{80}' && !StandsForItself(c)
    ensures EncodedPath([c]) == Escape(c as int)
  {
    assert [c][1..] == "" && [c as int][1..] == [];
    assert EncodeChar(c) == Escape(c as int) + EscapeAll([]);
  }

  predicate IsUpperHex(c: char) {
    ('0' <= c <= '9') || ('A' <= c <= 'F')
  }

  predicate UpperEscapes(s: string) {
    forall i :: 0 <= i < |s| && s[i] == '%' ==> i + 2 < |s| && IsUpperHex(s[i + 1]) && IsUpperHex(s[i + 2])
  }

  lemma UpperEscapesConcat(a: string, b: string)
    requires UpperEscapes(a) && UpperEscapes(b)
    ensures UpperEscapes(a + b)
  {
  }

  lemma {:induction false} EscapeAllUpper(b: seq<Byte>)
    ensures UpperEscapes(EscapeAll(b))
  {
    if b != [] {
      EscapeAllUpper(b[1..]);
      UpperEscapesConcat(Escape(b[0]), EscapeAll(b[1..]));
    }
  }

  /** Every `%` that is written opens an escape with two digits in upper case. */
  lemma {:induction false} EncodedPathUpper(s: string)
    ensures UpperEscapes(EncodedPath(s))
  {
    hide UpperEscapes;
    if s != "" {
      EncodedPathUpper(s[1..]);
      EncodeCharUpper(s[0]);
      UpperEscapesConcat(EncodeChar(s[0]), EncodedPath(s[1..]));
    } else {
      EscapeAllUpper([]);
    }
  }

  lemma EncodeCharUpper(c: char)
    ensures UpperEscapes(EncodeChar(c))
  {
    hide UpperEscapes;
    if InTable(c) || c >= '\U{80}' {
      EscapeAllUpper(Encode(c));
    } else {
      NoPercentUpper(c);
    }
  }

  lemma NoPercentUpper(c: char)
    requires c != '%'
    ensures UpperEscapes([c])
  {
  }

  // ----- the URL encoder -----

  predicate IsHexDigit(c: char) {
    ('0' <= c <= '9') || ('A' <= c <= 'F') || ('a' <= c <= 'f')
  }

  /** An author's `%XX` stands at the front. */
  predicate OpensUrlEscape(s: string) {
    |s| > 2 && s[0] == '%' && IsHexDigit(s[1]) && IsHexDigit(s[2])
  }

  function EncodedUrl(s: string): string {
    if s == "" then ""
    else (if OpensUrlEscape(s) then "%" else EncodeChar(s[0])) + EncodedUrl(s[1..])
  }

  lemma EncodedUrlAt(s: string, i: nat)
    requires i < |s|
    ensures EncodedUrl(s[i..]) ==
      (if s[i] == '%' && i + 2 < |s| && IsHexDigit(s[i + 1]) && IsHexDigit(s[i + 2]) then "%" else EncodeChar(s[i]))
      + EncodedUrl(s[i + 1..])
  {
    assert s[i..][1..] == s[i + 1..];
    if i + 2 < |s| {
      assert s[i..][1] == s[i + 1] && s[i..][2] == s[i + 2];
    }
  }

  method UriEncodeUrl(s: string) returns (out: string)
    ensures out == EncodedUrl(s)
  {
    out := "";
    var i := 0;
    assert s[0..] == s;
    while i < |s|
      invariant 0 <= i <= |s|
      invariant out + EncodedUrl(s[i..]) == EncodedUrl(s)
    {
      EncodedUrlAt(s, i);
      if s[i] == '%' && i + 2 < |s| && IsHexDigit(s[i + 1]) && IsHexDigit(s[i + 2]) {
        Shift(out, "%", EncodedUrl(s[i + 1..]));
        out := out + "%";
        i := i + 1;
        continue;
      }
      Shift(out, EncodeChar(s[i]), EncodedUrl(s[i + 1..]));
      out := out + EncodeChar(s[i]);
      i := i + 1;
    }
    assert s[i..] == "" && out + "" == out;
  }

  /** Nothing left to encode: every `%` opens an escape and every other character stands for itself. */
  predicate IsEncodedUrl(s: string) {
    s != "" ==> (if s[0] == '%' then OpensUrlEscape(s) else StandsForItself(s[0])) && IsEncodedUrl(s[1..])
  }

  lemma EscapeIsEncoded(b: Byte, rest: string)
    requires IsEncodedUrl(rest)
    ensures IsEncodedUrl(Escape(b) + rest)
  {
    var hi, lo := UpperHex(b / 16), UpperHex(b % 16);
    var s := Escape(b) + rest;
    assert s[1..] == [hi] + ([lo] + rest);
    assert ([hi] + ([lo] + rest))[1..] == [lo] + rest && ([lo] + rest)[1..] == rest;
    assert IsEncodedUrl([lo] + rest);
  }

  lemma {:induction false} EscapeAllIsEncoded(b: seq<Byte>, rest: string)
    requires IsEncodedUrl(rest)
    ensures IsEncodedUrl(EscapeAll(b) + rest)
  {
    hide Escape, IsEncodedUrl;
    if b == [] {
      assert EscapeAll(b) + rest == rest;
    } else {
      EscapeAllIsEncoded(b[1..], rest);
      EscapeIsEncoded(b[0], EscapeAll(b[1..]) + rest);
      Shift(Escape(b[0]), EscapeAll(b[1..]), rest);
    }
  }

  lemma EncodedUrlKeepsHex(s: string)
    ensures s != "" && IsHexDigit(s[0]) ==> EncodedUrl(s) != "" && EncodedUrl(s)[0] == s[0]
    ensures |s| > 1 && IsHexDigit(s[0]) && IsHexDigit(s[1]) ==> |EncodedUrl(s)| > 1 && EncodedUrl(s)[1] == s[1]
  {
    if |s| > 1 && IsHexDigit(s[0]) && IsHexDigit(s[1]) {
      assert EncodedUrl(s) == [s[0]] + EncodedUrl(s[1..]);
      assert EncodedUrl(s[1..]) == [s[1]] + EncodedUrl(s[1..][1..]);
    }
  }

  /** In the URL encoder's output every `%` opens a two-hex-digit escape. */
  lemma {:induction false} EncodedUrlIsEncoded(s: string)
    ensures IsEncodedUrl(EncodedUrl(s))
  {
    if s != "" {
      EncodedUrlIsEncoded(s[1..]);
      var rest := EncodedUrl(s[1..]);
      if OpensUrlEscape(s) {
        EncodedUrlKeepsHex(s[1..]);
        assert ("%" + rest)[1..] == rest;
      } else if InTable(s[0]) || s[0] >= '\U{80}' {
        EscapeAllIsEncoded(Encode(s[0]), rest);
      } else {
        assert ([s[0]] + rest)[1..] == rest;
      }
    }
  }

  /** The URLs the encoder leaves alone are exactly the encoded ones. */
  lemma EncodedUrlFixpoint(s: string)
    ensures EncodedUrl(s) == s <==> IsEncodedUrl(s)
  {
    if EncodedUrl(s) == s {
      EncodedUrlIsEncoded(s);
    } else if IsEncodedUrl(s) {
      EncodedUrlIdentity(s);
    }
  }

  lemma {:induction false} EncodedUrlIdentity(s: string)
    requires IsEncodedUrl(s)
    ensures EncodedUrl(s) == s
  {
    if s != "" {
      EncodedUrlIdentity(s[1..]);
    }
  }

  /** The URL encoder's output is safe inside an IRI under the same condition as the path encoder's. */
  lemma {:induction false} EncodedUrlSafe(s: string)
    ensures AllIriSafe(EncodedUrl(s)) <==> forall c <- s :: !IsControl(c)
  {
    if s != "" {
      EncodedUrlSafe(s[1..]);
      EncodeCharSafe(s[0]);
      var head := if OpensUrlEscape(s) then "%" else EncodeChar(s[0]);
      AllIriSafeConcat(head, EncodedUrl(s[1..]));
      assert forall c <- s :: c == s[0] || c in s[1..];
    }
  }

  /** Encoding an encoded URL changes nothing. */
  lemma EncodedUrlIdempotent(s: string)
    ensures EncodedUrl(EncodedUrl(s)) == EncodedUrl(s)
  {
    EncodedUrlIsEncoded(s);
    EncodedUrlIdentity(EncodedUrl(s));
  }

  /** Encoding a URL goes piece by piece between slashes: no escape reaches across one. */
  lemma {:induction false} EncodedUrlAtSlash(a: string, b: string)
    ensures EncodedUrl(a + "/" + b) == EncodedUrl(a) + "/" + EncodedUrl(b)
  {
    hide EncodeChar, OpensUrlEscape;
    var s := a + "/" + b;
    if a == "" {
      assert s[0] == '/' && s[1..] == b;
      SlashIsNoEscape(s);
      EncodeCharIff('/');
    } else {
      assert s[0] == a[0] && s[1..] == a[1..] + "/" + b;
      EncodedUrlAtSlash(a[1..], b);
      EscapeBeforeSlash(a, b);
      var head := if OpensUrlEscape(a) then "%" else EncodeChar(a[0]);
      assert EncodedUrl(s) == head + (EncodedUrl(a[1..]) + "/" + EncodedUrl(b));
    }
  }

  lemma SlashIsNoEscape(s: string)
    requires s != "" && s[0] == '/'
    ensures !OpensUrlEscape(s)
  {
  }

  lemma EscapeBeforeSlash(a: string, b: string)
    requires a != ""
    ensures OpensUrlEscape(a + "/" + b) <==> OpensUrlEscape(a)
  {
    var s := a + "/" + b;
    assert s[|a|] == '/' && !IsHexDigit('/');
    assert forall i :: 0 <= i < |a| ==> s[i] == a[i];
  }

  /** The scheme and the slashes of a URL stay, and nothing else of it decides how a piece is written. */
  lemma EncodedUrlKeepsScheme(rest: string)
    ensures EncodedUrl("http://" + rest) == "http://" + EncodedUrl(rest)
    ensures EncodedUrl("https://" + rest) == "https://" + EncodedUrl(rest)
  {
    hide EncodedUrl;
    SchemeStays("http:", rest);
    SchemeStays("https:", rest);
    assert "http:" + "/" + "/" + rest == "http://" + rest && "https:" + "/" + "/" + rest == "https://" + rest;
  }

  lemma SchemeStays(scheme: string, rest: string)
    requires forall c <- scheme :: StandsForItself(c)
    ensures EncodedUrl(scheme + "/" + "/" + rest) == scheme + "/" + "/" + EncodedUrl(rest)
  {
    hide EncodedUrl;
    EncodedUrlAtSlash(scheme + "/", rest);
    EncodedUrlAtSlash(scheme, "");
    assert scheme + "/" + "" == scheme + "/";
    PlainUrlStays(scheme);
    PlainUrlStays("");
  }

  lemma {:induction false} PlainUrlStays(s: string)
    requires forall c <- s :: StandsForItself(c)
    ensures EncodedUrl(s) == s
  {
    hide EncodeChar;
    if s != "" {
      EncodeCharIff(s[0]);
      PlainUrlStays(s[1..]);
      assert s == [s[0]] + s[1..];
    }
  }

  // ----- the decoder, character by character -----

  /** An escape the decoder accepts stands at the front of the text. */
  predicate OpensCharEscape(s: string) {
    |s| > 2 && s[0] == '%' && s[1] < '\U{80}' && s[2] < '\U{80}' && HexPair(s[1] as int, s[2] as int).Some?
  }

  lemma {:induction false} LiteralBytes(lit: seq<Byte>, rest: seq<Byte>)
    requires PERCENT !in lit
    ensures DecodeBytes(lit + rest) == lit + DecodeBytes(rest)
  {
    if lit == [] {
      assert lit + rest == rest;
    } else {
      assert (lit + rest)[1..] == lit[1..] + rest;
      LiteralBytes(lit[1..], rest);
    }
  }

  lemma BytesAscii(s: string)
    requires s != "" && s[0] < '\U{80}'
    ensures Bytes(s) == [s[0] as int] + Bytes(s[1..])
  {
  }

  lemma BytesFront(s: string)
    ensures |s| > 0 && s[0] < '\U{80}' ==> Bytes(s) == [s[0] as int] + Bytes(s[1..])
    ensures |s| > 1 && s[0] < '\U{80}' && s[1] < '\U{80}' ==>
      Bytes(s) == [s[0] as int, s[1] as int] + Bytes(s[2..])
    ensures |s| > 2 && s[0] < '\U{80}' && s[1] < '\U{80}' && s[2] < '\U{80}' ==>
      Bytes(s) == [s[0] as int, s[1] as int, s[2] as int] + Bytes(s[3..])
  {
    hide Bytes;
    if |s| > 0 && s[0] < '\U{80}' {
      BytesAscii(s);
      if |s| > 1 && s[1] < '\U{80}' {
        assert s[1..][1..] == s[2..];
        BytesAscii(s[1..]);
        if |s| > 2 && s[2] < '\U{80}' {
          assert s[2..][1..] == s[3..];
          BytesAscii(s[2..]);
        }
      }
    }
  }

  lemma EscapeByBytesOrChars(s: string)
    requires s != "" && s[0] == '%'
    ensures OpensEscape(Bytes(s)) == OpensCharEscape(s)
  {
    BytesFront(s);
    if |s| > 1 && s[1] >= '\U{80}' {
      assert s[1..][0] == s[1] && Bytes(s)[1] == Encode(s[1])[0];
    } else if |s| > 2 && s[2] >= '\U{80}' {
      assert s[2..][0] == s[2] && Bytes(s)[2] == Encode(s[2])[0];
    } else if |s| == 1 {
      assert s[1..] == "";
    } else if |s| == 2 {
      assert s[2..] == "";
    }
  }

  /** The bytes the decoder reads, one character or one escape at a time. */
  lemma DecodeChars(s: string)
    requires s != ""
    ensures if OpensCharEscape(s)
      then DecodeBytes(Bytes(s)) == [HexPair(s[1] as int, s[2] as int).value] + DecodeBytes(Bytes(s[3..]))
      else DecodeBytes(Bytes(s)) == Encode(s[0]) + DecodeBytes(Bytes(s[1..]))
  {
    if s[0] == '%' {
      EscapeByBytesOrChars(s);
      BytesFront(s);
      if OpensCharEscape(s) {
        assert Bytes(s)[3..] == Bytes(s[3..]);
      } else {
        assert Bytes(s)[1..] == Bytes(s[1..]);
      }
    } else {
      LiteralBytes(Encode(s[0]), Bytes(s[1..]));
    }
  }

  /** Escapes spelled with a sign, `%+h`: only the decoder takes them for escapes. */
  function PlusEscapes(s: string): nat {
    if s == "" then 0
    else (if OpensCharEscape(s) && s[1] == '+' then 1 else 0) + PlusEscapes(s[1..])
  }

  lemma {:induction false} EncodedUrlDecodes(s: string)
    ensures |DecodeBytes(Bytes(EncodedUrl(s)))| == |DecodeBytes(Bytes(s))| + 2 * PlusEscapes(s)
    ensures PlusEscapes(s) == 0 ==> DecodeBytes(Bytes(EncodedUrl(s))) == DecodeBytes(Bytes(s))
  {
    if s != "" {
      DecodeChars(s);
      if OpensUrlEscape(s) {
        KeptEscapeDecodes(s);
        EncodedUrlDecodes(s[3..]);
      } else {
        EncodedUrlDecodes(s[1..]);
        var rest := EncodedUrl(s[1..]);
        BytesConcat(EncodeChar(s[0]), rest);
        EncodeCharDecodes(s[0], Bytes(rest));
        if OpensCharEscape(s) {
          PlusEscapeDecodes(s);
        }
      }
    }
  }

  /** An author's escape passes through both the encoder and the decoder as itself. */
  lemma KeptEscapeDecodes(s: string)
    requires OpensUrlEscape(s)
    ensures OpensCharEscape(s) && PlusEscapes(s) == PlusEscapes(s[3..])
    ensures DecodeBytes(Bytes(EncodedUrl(s))) ==
      [HexPair(s[1] as int, s[2] as int).value] + DecodeBytes(Bytes(EncodedUrl(s[3..])))
  {
    assert s[1..][1..] == s[2..] && s[2..][1..] == s[3..];
    hide Bytes, DecodeBytes, EncodedUrl, HexPair, HexValue;
    EncodedUrlHex(s[2..]);
    EncodedUrlHex(s[1..]);
    EncodedUrlAt(s, 0);
    assert s[0..] == s;
    ThreeFirst(s[0], s[1], s[2], EncodedUrl(s[3..]));
    KeptEscapeCount(s);
  }

  lemma KeptEscapeCount(s: string)
    requires OpensUrlEscape(s)
    ensures PlusEscapes(s) == PlusEscapes(s[3..])
  {
    assert s[1..][1..] == s[2..] && s[2..][1..] == s[3..];
    assert !OpensCharEscape(s[1..]) && !OpensCharEscape(s[2..]);
    assert PlusEscapes(s) == PlusEscapes(s[1..]) == PlusEscapes(s[2..]);
  }

  lemma EncodedUrlHex(s: string)
    requires s != "" && IsHexDigit(s[0])
    ensures EncodedUrl(s) == [s[0]] + EncodedUrl(s[1..])
  {
    hide EncodeChar;
    EncodeCharIff(s[0]);
  }

  lemma ThreeFirst(a: char, b: char, c: char, tail: string)
    requires a == '%' && IsHexDigit(b) && IsHexDigit(c)
    ensures HexPair(b as int, c as int).Some?
    ensures DecodeBytes(Bytes("%" + ([b] + ([c] + tail))))
      == [HexPair(b as int, c as int).value] + DecodeBytes(Bytes(tail))
  {
    hide Bytes, DecodeBytes;
    var out := [a, b, c] + tail;
    assert "%" + ([b] + ([c] + tail)) == out;
    assert out[3..] == tail;
    DecodeChars(out);
  }

  /** A signed escape: the text after its `%` is what an unsigned text would read there. */
  lemma PlusEscapeDecodes(s: string)
    requires OpensCharEscape(s) && !OpensUrlEscape(s)
    ensures PlusEscapes(s) == 1 + PlusEscapes(s[1..])
    ensures |DecodeBytes(Bytes(s[1..]))| == 2 + |DecodeBytes(Bytes(s[3..]))|
  {
    assert s[1] == '+';
    assert s[1..][1..] == s[2..] && s[2..][1..] == s[3..];
    DecodeChars(s[1..]);
    DecodeChars(s[2..]);
  }

  /** The encoded URL reads back as what the author's URL reads as, unless the author's text
      holds a signed escape `%+h` -- the one spelling the decoder accepts and the encoder does not. */
  lemma EncodedUrlMeansTheSame(s: string)
    ensures DecodeBytes(Bytes(EncodedUrl(s))) == DecodeBytes(Bytes(s)) <==> PlusEscapes(s) == 0
  {
    EncodedUrlDecodes(s);
  }

  /** Decoding as section 2.1 of RFC 3986 has it: an escape is `%` and two hex digits. */
  function StrictBytes(s: string): seq<Byte> {
    if s == "" then []
    else if OpensUrlEscape(s) then [HexPair(s[1] as int, s[2] as int).value] + StrictBytes(s[3..])
    else Encode(s[0]) + StrictBytes(s[1..])
  }

  lemma {:induction false} StrictCount(s: string)
    ensures |StrictBytes(s)| == |DecodeBytes(Bytes(s))| + 2 * PlusEscapes(s)
    ensures PlusEscapes(s) == 0 ==> StrictBytes(s) == DecodeBytes(Bytes(s))
  {
    hide Bytes, DecodeBytes, HexPair;
    if s == "" {
      EmptyDecodes();
    } else {
      DecodeChars(s);
      if OpensUrlEscape(s) {
        KeptEscapeDecodes(s);
        StrictCount(s[3..]);
      } else {
        StrictCount(s[1..]);
        if OpensCharEscape(s) {
          PlusEscapeDecodes(s);
        }
      }
    }
  }

  lemma EmptyDecodes()
    ensures DecodeBytes(Bytes("")) == []
  {
  }

  /** The decoder decodes as the RFC does exactly the texts that hold no signed escape. */
  lemma DecodesStrictlyIff(s: string)
    ensures DecodeBytes(Bytes(s)) == StrictBytes(s) <==> PlusEscapes(s) == 0
  {
    StrictCount(s);
  }

  /** A sign and a hex digit after a `%` are read as one byte, wherever they stand, although no encoder writes
      them and the RFC has no such escape. */
  lemma PlusSignAccepted(h: char, rest: string)
    requires IsHexDigit(h)
    ensures DecodeBytes(Bytes(['%', '+', h] + rest)) == [HexValue(h as int).value] + DecodeBytes(Bytes(rest))
    ensures StrictBytes(['%', '+', h] + rest) == [PERCENT, 0x2B, h as int] + StrictBytes(rest)
    ensures PlusEscapes(['%', '+', h] + rest) == 1 + PlusEscapes(rest)
  {
    hide Bytes, DecodeBytes;
    var s := ['%', '+', h] + rest;
    assert s[3..] == rest && s[1..][1..] == s[2..] && s[2..][1..] == s[3..];
    DecodeChars(s);
    assert !OpensUrlEscape(s) && !OpensUrlEscape(s[1..]) && !OpensUrlEscape(s[2..]);
    assert !OpensCharEscape(s[1..]) && !OpensCharEscape(s[2..]);
    assert Encode('%') == [PERCENT] && Encode('+') == [0x2B] && Encode(h) == [h as int];
    assert StrictBytes(s) == [PERCENT] + StrictBytes(s[1..]);
    assert StrictBytes(s[1..]) == [0x2B] + StrictBytes(s[2..]);
    assert StrictBytes(s[2..]) == [h as int] + StrictBytes(rest);
    assert PlusEscapes(s) == 1 + PlusEscapes(s[1..]) == 1 + PlusEscapes(s[2..]);
  }
}
