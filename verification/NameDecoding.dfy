// What decoding a name accepts (crates/ikigai-core/src/contract.rs:294-317), and what parsing the IRIs
// that carry one does (crates/ikigai-core/src/contract.rs:355-424), over every text.

module NameDecoding {
  import opened Wrappers
  import opened Text
  import opened Utf8
  import opened Names
  import opened ContractIris

  // ---- digits ----

  // The sixteen digits in either case, and nothing else: no sign, no blank.
  lemma HexValueIff(b: Byte, n: nat)
    ensures HexValue(b) == Some(n) <==> n < 16 && (b == UPPER[n] as nat || b == LOWER[n] as nat)
  {
  }

  predicate HexDigit(c: char, n: nat) { n < 16 && (c == UPPER[n] || c == LOWER[n]) }

  predicate AnyDigit(c: char) { '0' <= c <= '9' || 'a' <= c <= 'f' || 'A' <= c <= 'F' }

  lemma DigitIs(c: char, n: nat)
    requires HexDigit(c, n)
    ensures AnyDigit(c) && c as nat < 0x80
  {
  }

  lemma CharHexIff(c: char, n: nat)
    ensures CharHex(c) == Some(n) <==> HexDigit(c, n)
  {
    if c as nat < 0x80 {
      HexValueIff(c as nat, n);
    }
  }

  // ---- the pieces of an escaped name ----

  datatype Piece = Plain(c: char) | Escaped(hi: char, lo: char, b: Byte)

  // A plain piece is no percent sign, and an escape is two digits of its byte.
  predicate WellCut(piece: Piece) {
    match piece
    case Plain(c) => c != '%'
    case Escaped(hi, lo, b) => HexDigit(hi, b / 16) && HexDigit(lo, b % 16)
  }

  function PieceText(piece: Piece): string {
    match piece
    case Plain(c) => [c]
    case Escaped(hi, lo, _) => ['%', hi, lo]
  }

  function PieceBytes(piece: Piece): seq<Byte> {
    match piece
    case Plain(c) => EncodeScalar(c as nat)
    case Escaped(_, _, b) => [b]
  }

  function Spell(pieces: seq<Piece>): string {
    if pieces == [] then "" else PieceText(pieces[0]) + Spell(pieces[1..])
  }

  function Stand(pieces: seq<Piece>): seq<Byte> {
    if pieces == [] then [] else PieceBytes(pieces[0]) + Stand(pieces[1..])
  }

  predicate AllWellCut(pieces: seq<Piece>) { forall k | 0 <= k < |pieces| :: WellCut(pieces[k]) }

  // Only ASCII encodes to a byte below 0x80.
  lemma FirstByteAscii(c: char)
    ensures EncodeScalar(c as nat)[0] < 0x80 ==> c as nat == EncodeScalar(c as nat)[0] && |EncodeScalar(c as nat)| == 1
    ensures c as nat < 0x80 ==> EncodeScalar(c as nat) == [c as nat]
    ensures c != '%' ==> PERCENT !in EncodeScalar(c as nat)
  {
  }

  lemma PlainFront(c: char, rest: string)
    requires c != '%'
    ensures Unescape(Encode([c] + rest)) == Prefixed(EncodeScalar(c as nat), Unescape(Encode(rest)))
  {
    EncodeCons(c, rest);
    FirstByteAscii(c);
    UnescapePlain(EncodeScalar(c as nat), Encode(rest));
  }

  lemma EscapedFront(hi: char, lo: char, b: Byte, rest: string)
    requires HexDigit(hi, b / 16) && HexDigit(lo, b % 16)
    ensures Unescape(Encode(['%', hi, lo] + rest)) == Prefixed([b], Unescape(Encode(rest)))
  {
    EscapedEncodes(hi, lo, rest);
    HexValueIff(hi as nat, b / 16);
    HexValueIff(lo as nat, b % 16);
    EscapeStep(hi as nat, lo as nat, b, Encode(rest));
  }

  lemma EscapeStep(hi: Byte, lo: Byte, b: Byte, tail: seq<Byte>)
    requires HexValue(hi) == Some(b / 16) && HexValue(lo) == Some(b % 16)
    ensures Unescape([PERCENT, hi, lo] + tail) == Prefixed([b], Unescape(tail))
  {
    assert ([PERCENT, hi, lo] + tail)[3..] == tail;
  }

  lemma EscapedEncodes(hi: char, lo: char, rest: string)
    requires hi as nat < 0x80 && lo as nat < 0x80
    ensures Encode(['%', hi, lo] + rest) == [PERCENT, hi as nat, lo as nat] + Encode(rest)
  {
    assert ['%', hi, lo] + rest == ['%'] + ([hi] + ([lo] + rest));
    EncodeCons('%', [hi] + ([lo] + rest));
    EncodeCons(hi, [lo] + rest);
    EncodeCons(lo, rest);
  }

  lemma {:induction false} PiecesUnescape(pieces: seq<Piece>)
    requires AllWellCut(pieces)
    ensures Unescape(Encode(Spell(pieces))) == Some(Stand(pieces))
  {
    if pieces != [] {
      PiecesUnescape(pieces[1..]);
      assert WellCut(pieces[0]);
      match pieces[0]
      case Plain(c) => PlainFront(c, Spell(pieces[1..]));
      case Escaped(hi, lo, b) => EscapedFront(hi, lo, b, Spell(pieces[1..]));
    }
  }

  // A percent sign that reads is followed by two digits.
  lemma PercentReads(s: string) returns (b: Byte)
    requires s != "" && s[0] == '%' && Unescape(Encode(s)).Some?
    ensures |s| >= 3 && HexDigit(s[1], b / 16) && HexDigit(s[2], b % 16)
    ensures Unescape(Encode(s)) == Prefixed([b], Unescape(Encode(s[3..])))
  {
    b := TwoDigits(s);
    assert s == ['%', s[1], s[2]] + s[3..];
    EscapedFront(s[1], s[2], b, s[3..]);
  }

  lemma TwoDigits(s: string) returns (b: Byte)
    requires s != "" && s[0] == '%' && Unescape(Encode(s)).Some?
    ensures |s| >= 3 && HexDigit(s[1], b / 16) && HexDigit(s[2], b % 16)
  {
    var after := s[1..];
    var first := Encode(after);
    assert s == ['%'] + after;
    EncodeCons('%', after);
    FirstByteAscii('%');
    EscapeReads(Encode(s));
    assert Encode(s)[1..] == first;
    SecondDigit(after, first);
    SecondDigit(after[1..], first[1..]);
    var hi, lo := HexValue(first[0]).value, HexValue(first[1]).value;
    HexValueIff(first[0], hi);
    HexValueIff(first[1], lo);
    b := 16 * hi + lo;
    assert b / 16 == hi && b % 16 == lo;
  }

  lemma EscapeReads(bytes: seq<Byte>)
    requires bytes != [] && bytes[0] == PERCENT && Unescape(bytes).Some?
    ensures |bytes| >= 3 && HexValue(bytes[1]).Some? && HexValue(bytes[2]).Some?
  {
  }

  // A text whose bytes start with a digit starts with it.
  lemma SecondDigit(s: string, bytes: seq<Byte>)
    requires bytes == Encode(s) && bytes != [] && HexValue(bytes[0]).Some?
    ensures s != "" && s[0] as nat == bytes[0] && bytes[1..] == Encode(s[1..])
  {
    FirstByteAscii(s[0]);
  }

  lemma {:induction false} UnescapedPieces(s: string) returns (pieces: seq<Piece>)
    requires Unescape(Encode(s)).Some?
    ensures AllWellCut(pieces) && Spell(pieces) == s && Stand(pieces) == Unescape(Encode(s)).value
    decreases |s|
  {
    if s == "" {
      pieces := [];
    } else if s[0] == '%' {
      var b := PercentReads(s);
      var rest := UnescapedPieces(s[3..]);
      pieces := [Escaped(s[1], s[2], b)] + rest;
      assert pieces[1..] == rest && s == ['%', s[1], s[2]] + s[3..];
    } else {
      assert s == [s[0]] + s[1..];
      PlainFront(s[0], s[1..]);
      var rest := UnescapedPieces(s[1..]);
      pieces := [Plain(s[0])] + rest;
      assert pieces[1..] == rest;
    }
  }

  // A segment decodes to `t` exactly when it is cut into plain characters and escapes of two digits
  // whose bytes are those of `t`.
  lemma DecodeSegmentIff(s: string, t: string)
    ensures DecodeSegment(s) == Some(t)
            <==> exists pieces :: AllWellCut(pieces) && Spell(pieces) == s && Stand(pieces) == Encode(t)
  {
    if DecodeSegment(s) == Some(t) {
      var pieces := UnescapedPieces(s);
      DecodeIffEncode(Stand(pieces), t);
    }
    if pieces :| AllWellCut(pieces) && Spell(pieces) == s && Stand(pieces) == Encode(t) {
      PiecesUnescape(pieces);
      DecodeIffEncode(Stand(pieces), t);
    }
  }

  // So a percent sign without two digits after it is refused, wherever it stands.
  lemma BrokenEscapeRefused(s: string, i: nat)
    requires i < |s| && s[i] == '%'
    requires i + 2 < |s| ==> !(AnyDigit(s[i + 1]) && AnyDigit(s[i + 2]))
    ensures DecodeSegment(s).None?
  {
    if DecodeSegment(s).Some? {
      var pieces := UnescapedPieces(s);
      PercentEscapes(pieces, i);
    }
  }

  lemma {:induction false} PercentEscapes(pieces: seq<Piece>, i: nat)
    requires AllWellCut(pieces) && i < |Spell(pieces)| && Spell(pieces)[i] == '%'
    ensures i + 2 < |Spell(pieces)| && AnyDigit(Spell(pieces)[i + 1]) && AnyDigit(Spell(pieces)[i + 2])
  {
    var text, rest := PieceText(pieces[0]), Spell(pieces[1..]);
    assert WellCut(pieces[0]);
    if i >= |text| {
      PercentEscapes(pieces[1..], i - |text|);
      assert Spell(pieces)[i + 1] == rest[i - |text| + 1] && Spell(pieces)[i + 2] == rest[i - |text| + 2];
    } else {
      EscapeIsDigits(pieces[0], i);
      assert Spell(pieces)[1] == text[1] && Spell(pieces)[2] == text[2];
    }
  }

  lemma EscapeIsDigits(piece: Piece, i: nat)
    requires WellCut(piece) && i < |PieceText(piece)| && PieceText(piece)[i] == '%'
    ensures i == 0 && |PieceText(piece)| == 3 && AnyDigit(PieceText(piece)[1]) && AnyDigit(PieceText(piece)[2])
  {
    DigitIs(piece.hi, piece.b / 16);
    DigitIs(piece.lo, piece.b % 16);
  }

  // ---- which characters are encoded ----

  // `ucschar`, range by range (section 2.2 of RFC 3987).
  predicate Ucschar(c: char) {
    var n := c as nat;
    || 0xA0 <= n <= 0xD7FF || 0xF900 <= n <= 0xFDCF || 0xFDF0 <= n <= 0xFFEF
    || 0x10000 <= n <= 0x1FFFD || 0x20000 <= n <= 0x2FFFD || 0x30000 <= n <= 0x3FFFD
    || 0x40000 <= n <= 0x4FFFD || 0x50000 <= n <= 0x5FFFD || 0x60000 <= n <= 0x6FFFD
    || 0x70000 <= n <= 0x7FFFD || 0x80000 <= n <= 0x8FFFD || 0x90000 <= n <= 0x9FFFD
    || 0xA0000 <= n <= 0xAFFFD || 0xB0000 <= n <= 0xBFFFD || 0xC0000 <= n <= 0xCFFFD
    || 0xD0000 <= n <= 0xDFFFD || 0xE1000 <= n <= 0xEFFFD
  }

  // What a path of an IRI may hold as it is: `ipchar` without the escapes, and the slash between them.
  predicate PathChar(c: char) {
    || 'a' <= c <= 'z' || 'A' <= c <= 'Z' || '0' <= c <= '9'
    || c == '-' || c == '.' || c == '_' || c == '~'
    || c == '!' || c == '$' || c == '&' || c == '\'' || c == '(' || c == ')' || c == '*' || c == '+' || c == ','
    || c == ';' || c == '='
    || c == ':' || c == '@' || c == '/'
    || Ucschar(c)
  }

  lemma ReservedAre(c: char)
    ensures c in RESERVED
            <==> || c == '<' || c == '>' || c == '"' || c == '{' || c == '}' || c == '|' || c == '^' || c == '`'
                 || c == '\\' || c == '[' || c == ']' || c == '#' || c == '?'
  {
    assert RESERVED == ['<', '>', '"', '{', '}', '|', '^', '`', '\\', '[', ']', '#', '?'];
  }

  lemma UcscharIff(c: char)
    requires c as nat >= 0x80
    ensures NonUcschar(c) <==> !Ucschar(c)
  {
    var n := c as nat;
    var plane := n / 0x10000;
    assert n == plane * 0x10000 + n % 0x10000 && plane <= 16;
  }

  // Exactly the characters a path may not hold are encoded.
  lemma EncodedIffNotPath(c: char)
    ensures MustEncode(c) <==> !PathChar(c)
  {
    ReservedAre(c);
    if c as nat >= 0x80 {
      UcscharIff(c);
    }
  }

  // So an encoded name is path characters and escapes, whatever the name holds.
  lemma EncodedIsPath(s: string, i: nat)
    requires i < |EncodeName(s)|
    ensures EncodeName(s)[i] == '%' || PathChar(EncodeName(s)[i])
  {
    EncodedIsSafe(s);
    EncodedIffNotPath(EncodeName(s)[i]);
  }

  // ---- the IRIs that carry a name ----

  lemma ParseVerbIff(name: string, verb: Verb)
    ensures ParseVerb(name) == Some(verb) <==> name == VerbSegment(verb)
  {
  }

  // A text is a match IRI of a verb and a pattern exactly when it is the prefix, the verb's word, a
  // colon and a segment that decodes to the pattern.
  lemma ParseMatchIriIff(iri: string, verb: Verb, pattern: string)
    ensures ParseMatchIri(iri) == Some((verb, pattern))
            <==> exists segment :: iri == MATCH_PREFIX + (VerbSegment(verb) + ":" + segment)
                                   && DecodeSegment(segment) == Some(pattern)
  {
    if ParseMatchIri(iri) == Some((verb, pattern)) {
      var segment := MatchParts(iri, verb, pattern);
    }
    if segment :| iri == MATCH_PREFIX + (VerbSegment(verb) + ":" + segment) && DecodeSegment(segment) == Some(pattern) {
      MatchReads(verb, segment);
    }
  }

  lemma MatchParts(iri: string, verb: Verb, pattern: string) returns (segment: string)
    requires ParseMatchIri(iri) == Some((verb, pattern))
    ensures iri == MATCH_PREFIX + (VerbSegment(verb) + ":" + segment) && DecodeSegment(segment) == Some(pattern)
  {
    var rest := StripPrefix(iri, MATCH_PREFIX).value;
    StrippedIs(iri, MATCH_PREFIX, rest);
    var first := SplitOnce(rest, ':').value.0;
    segment := SplitOnce(rest, ':').value.1;
    SplitJoins(rest, first, segment);
    ParseVerbIff(first, verb);
  }

  lemma StrippedIs(s: string, prefix: string, rest: string)
    requires StripPrefix(s, prefix) == Some(rest)
    ensures s == prefix + rest
  {
  }

  lemma SplitJoins(s: string, first: string, rest: string)
    requires SplitOnce(s, ':') == Some((first, rest))
    ensures s == first + ":" + rest
  {
  }

  lemma MatchReads(verb: Verb, segment: string)
    requires DecodeSegment(segment).Some?
    ensures ParseMatchIri(MATCH_PREFIX + (VerbSegment(verb) + ":" + segment))
            == Some((verb, DecodeSegment(segment).value))
  {
    var word := VerbSegment(verb);
    var rest := word + ":" + segment;
    VerbsParse(verb);
    SplitsAtColon(word, segment);
    assert (MATCH_PREFIX + rest)[|MATCH_PREFIX|..] == rest;
  }

  lemma SplitsAtColon(word: string, segment: string)
    requires ':' !in word
    ensures SplitOnce(word + ":" + segment, ':') == Some((word, segment))
  {
    var rest := word + ":" + segment;
    assert rest[..|word|] == word && rest[|word|] == ':' && rest[|word| + 1..] == segment;
    FindCharIs(rest, ':', |word|);
  }

  // Two digits for every byte.
  predicate SpellsBytes(s: string, bytes: seq<Byte>) {
    |s| == 2 * |bytes|
    && forall k | 0 <= k < |bytes| :: HexDigit(s[2 * k], bytes[k] / 16) && HexDigit(s[2 * k + 1], bytes[k] % 16)
  }

  lemma SpellsCons(s: string, bytes: seq<Byte>)
    requires bytes != [] && |s| >= 2
    ensures SpellsBytes(s, bytes)
            <==> HexDigit(s[0], bytes[0] / 16) && HexDigit(s[1], bytes[0] % 16) && SpellsBytes(s[2..], bytes[1..])
  {
    var rest, tail := s[2..], bytes[1..];
    if SpellsBytes(s, bytes) {
      forall k | 0 <= k < |tail|
        ensures HexDigit(rest[2 * k], tail[k] / 16) && HexDigit(rest[2 * k + 1], tail[k] % 16)
      {
        assert HexDigit(s[2 * (k + 1)], bytes[k + 1] / 16);
      }
    }
    if HexDigit(s[0], bytes[0] / 16) && HexDigit(s[1], bytes[0] % 16) && SpellsBytes(rest, tail) {
      forall k | 0 <= k < |bytes| ensures HexDigit(s[2 * k], bytes[k] / 16) && HexDigit(s[2 * k + 1], bytes[k] % 16) {
        if k > 0 {
          assert HexDigit(rest[2 * (k - 1)], tail[k - 1] / 16) && HexDigit(rest[2 * (k - 1) + 1], tail[k - 1] % 16);
        }
      }
    }
  }

  lemma {:induction false} DecodeHexIff(s: string, bytes: seq<Byte>)
    ensures DecodeHex(s) == Some(bytes) <==> SpellsBytes(s, bytes)
    decreases |s|
  {
    if |s| >= 2 && bytes != [] {
      DecodeHexIff(s[2..], bytes[1..]);
      SpellsCons(s, bytes);
      CharHexIff(s[0], bytes[0] / 16);
      CharHexIff(s[1], bytes[0] % 16);
      HexPair(s, bytes);
    }
  }

  // What a text of digits reads as is the byte of its first two and the bytes of the rest.
  lemma HexPair(s: string, bytes: seq<Byte>)
    requires |s| >= 2 && bytes != []
    ensures DecodeHex(s) == Some(bytes)
            <==> CharHex(s[0]) == Some(bytes[0] / 16) && CharHex(s[1]) == Some(bytes[0] % 16)
                 && DecodeHex(s[2..]) == Some(bytes[1..])
  {
    var rest := DecodeHex(s[2..]);
    if CharHex(s[0]).Some? && CharHex(s[1]).Some? && rest.Some? {
      var hi, lo := CharHex(s[0]).value, CharHex(s[1]).value;
      PairIs(hi, lo, bytes[0]);
      assert DecodeHex(s) == Some([16 * hi + lo] + rest.value);
      assert bytes == [bytes[0]] + bytes[1..];
      assert ([16 * hi + lo] + rest.value)[1..] == rest.value;
    }
  }

  lemma PairIs(hi: nat, lo: nat, b: Byte)
    requires hi < 16 && lo < 16
    ensures 16 * hi + lo == b <==> hi == b / 16 && lo == b % 16
  {
  }

  lemma ParseDigestIff(s: string, digest: Digest)
    ensures ParseDigest(s) == Some(digest) <==> "b3:" <= s && SpellsBytes(s[3..], digest)
  {
    if "b3:" <= s {
      DecodeHexIff(s[3..], digest);
    }
  }

  // A text is a contract IRI exactly when it is the prefix, a segment that decodes to the id, the verb's
  // word and a digest's text, whatever colons the segment holds.
  lemma ParseContractIriIff(iri: string, id: string, verb: Verb, digest: Digest)
    ensures ParseContractIri(iri) == Some((id, verb, digest))
            <==> exists segment, hex ::
                   iri == CONTRACT_PREFIX + (segment + ":" + VerbSegment(verb) + ":" + ("b3:" + hex))
                                        && DecodeSegment(segment) == Some(id) && SpellsBytes(hex, digest)
  {
    var word := VerbSegment(verb);
    if ParseContractIri(iri) == Some((id, verb, digest)) {
      var segment, hex := ContractParts(iri, verb);
      ParseDigestIff("b3:" + hex, digest);
      assert ("b3:" + hex)[3..] == hex;
    }
    if segment, hex :| iri == CONTRACT_PREFIX + (segment + ":" + word + ":" + ("b3:" + hex))
                       && DecodeSegment(segment) == Some(id) && SpellsBytes(hex, digest) {
      VerbsParse(verb);
      NoColon(hex, digest);
      IriSplits(segment, word, hex);
      ParseDigestIff("b3:" + hex, digest);
      assert ("b3:" + hex)[3..] == hex;
    }
  }

  lemma ContractParts(iri: string, verb: Verb) returns (segment: string, hex: string)
    requires ParseContractIri(iri).Some? && ParseContractIri(iri).value.1 == verb
    ensures iri == CONTRACT_PREFIX + (segment + ":" + VerbSegment(verb) + ":" + ("b3:" + hex))
    ensures DecodeSegment(segment) == Some(ParseContractIri(iri).value.0)
    ensures ParseDigest("b3:" + hex) == Some(ParseContractIri(iri).value.2)
  {
    var rest := iri[|CONTRACT_PREFIX|..];
    var head := RSplitOnce(rest, ":b3:").value.0;
    hex := RSplitOnce(rest, ":b3:").value.1;
    segment := RSplitOnce(head, ":").value.0;
    var name := RSplitOnce(head, ":").value.1;
    ParseVerbIff(name, verb);
    SplitRejoins(rest, ":b3:");
    SplitRejoins(head, ":");
    assert iri == CONTRACT_PREFIX + rest;
    Rejoined(head, hex);
  }

  lemma Rejoined(head: string, hex: string)
    ensures head + ":b3:" + hex == head + ":" + ("b3:" + hex)
  {
    assert ":b3:" == ":" + "b3:";
  }

  lemma SplitRejoins(s: string, pattern: string)
    requires RSplitOnce(s, pattern).Some?
    ensures s == RSplitOnce(s, pattern).value.0 + pattern + RSplitOnce(s, pattern).value.1
  {
    var i := LastBefore(s, pattern, |s| + 1).value;
    assert s == s[..i] + s[i..i + |pattern|] + s[i + |pattern|..];
  }

  lemma NoColon(hex: string, bytes: seq<Byte>)
    requires SpellsBytes(hex, bytes)
    ensures ':' !in hex
  {
    forall i | 0 <= i < |hex| ensures hex[i] != ':' {
      var k := i / 2;
      assert HexDigit(hex[2 * k], bytes[k] / 16) && HexDigit(hex[2 * k + 1], bytes[k] % 16);
      DigitIs(hex[2 * k], bytes[k] / 16);
      DigitIs(hex[2 * k + 1], bytes[k] % 16);
    }
  }

  // A sign is no digit: the escape the source's comment tells of is refused under every verb.
  lemma SignedEscapeRefused(verb: Verb)
    ensures CanonicalMatchIri(MATCH_PREFIX + (VerbSegment(verb) + ":" + "%+1")) == None
  {
    var iri := MATCH_PREFIX + (VerbSegment(verb) + ":" + "%+1");
    BrokenEscapeRefused("%+1", 0);
    if ParseMatchIri(iri).Some? {
      var (other, pattern) := ParseMatchIri(iri).value;
      var segment := MatchParts(iri, other, pattern);
      SameAfterPrefix(VerbSegment(verb), "%+1", VerbSegment(other), segment);
    }
  }

  lemma SameAfterPrefix(word: string, a: string, other: string, b: string)
    requires MATCH_PREFIX + (word + ":" + a) == MATCH_PREFIX + (other + ":" + b)
    requires ':' !in word && ':' !in other
    ensures word == other && a == b
  {
    assert (MATCH_PREFIX + (word + ":" + a))[|MATCH_PREFIX|..] == word + ":" + a;
    assert (MATCH_PREFIX + (other + ":" + b))[|MATCH_PREFIX|..] == other + ":" + b;
    SplitsAtColon(word, a);
    SplitsAtColon(other, b);
  }

  lemma Headed(word: string, segment: string, whole: string)
    requires whole == word + ":"
    ensures word + ":" + segment == whole + segment
  {
  }

  // Each verb is written as its own word.
  lemma MatchIriWords(pattern: string)
    ensures MatchIri(Source, pattern) == "urn:ikigai:match:" + ("source:" + EncodeName(pattern))
    ensures MatchIri(Sink, pattern) == "urn:ikigai:match:" + ("sink:" + EncodeName(pattern))
    ensures MatchIri(Exists, pattern) == "urn:ikigai:match:" + ("exists:" + EncodeName(pattern))
    ensures MatchIri(Delete, pattern) == "urn:ikigai:match:" + ("delete:" + EncodeName(pattern))
    ensures MatchIri(Meta, pattern) == "urn:ikigai:match:" + ("meta:" + EncodeName(pattern))
  {
    var segment := EncodeName(pattern);
    Headed("source", segment, "source:");
    Headed("sink", segment, "sink:");
    Headed("exists", segment, "exists:");
    Headed("delete", segment, "delete:");
    Headed("meta", segment, "meta:");
  }
}
