// Names in IRIs (crates/ikigai-core/src/contract.rs): the injective percent-encoding of a name
// (section 2.1 of RFC 3986), and the match and contract IRIs built with it.

module Names {
  import opened Wrappers
  import opened Text
  import opened Utf8

  // Outside RFC 3987's `ucschar`, ASCII apart from DEL being none of its business.
  predicate NonUcschar(c: char) {
    var cp := c as nat;
    if cp < 0x80 then cp == 0x7F
    else
      var inBmp := 0xA0 <= cp <= 0xD7FF || 0xF900 <= cp <= 0xFDCF || 0xFDF0 <= cp <= 0xFFEF;
      var aboveBmp := 0x1_0000 <= cp <= 0xE_FFFD && cp % 0x1_0000 <= 0xFFFD && !(0xE_0000 <= cp <= 0xE_0FFF);
      !(inBmp || aboveBmp)
  }

  const RESERVED: string := "<>\"{}|^`\\[]#?"

  predicate MustEncode(c: char) {
    c == '%' || c <= ' ' || c in RESERVED || NonUcschar(c)
  }

  const UPPER: string := "0123456789ABCDEF"
  const LOWER: string := "0123456789abcdef"

  function Escape(bytes: seq<Byte>): string {
    if bytes == [] then ""
    else "%" + [UPPER[bytes[0] / 16]] + [UPPER[bytes[0] % 16]] + Escape(bytes[1..])
  }

  function EncodedChar(c: char): string {
    if MustEncode(c) then Escape(EncodeScalar(c as nat)) else [c]
  }

  function EncodeName(s: string): string {
    if s == "" then "" else EncodedChar(s[0]) + EncodeName(s[1..])
  }

  function HexValue(b: Byte): (value: Option<nat>)
    ensures value.Some? ==> value.value < 16
  {
    if 0x30 <= b <= 0x39 then Some(b - 0x30)
    else if 0x61 <= b <= 0x66 then Some(b - 0x61 + 10)
    else if 0x41 <= b <= 0x46 then Some(b - 0x41 + 10)
    else None
  }

  const PERCENT: Byte := 0x25

  // The bytes an escaped text stands for; none for a malformed escape.
  function Unescape(bytes: seq<Byte>): Option<seq<Byte>> {
    if bytes == [] then Some([])
    else if bytes[0] != PERCENT then Cons(bytes[0], Unescape(bytes[1..]))
    else if |bytes| < 3 || HexValue(bytes[1]).None? || HexValue(bytes[2]).None? then None
    else Cons(16 * HexValue(bytes[1]).value + HexValue(bytes[2]).value, Unescape(bytes[3..]))
  }

  function Cons(b: Byte, rest: Option<seq<Byte>>): Option<seq<Byte>> {
    match rest
    case None => None
    case Some(bytes) => Some([b] + bytes)
  }

  function DecodeSegment(s: string): Option<string> {
    match Unescape(Encode(s))
    case None => None
    case Some(bytes) => Decode(bytes)
  }

  // ---- as the source runs them ----

  method EncodeNameLoop(s: string) returns (out: string)
    ensures out == EncodeName(s)
  {
    if forall i | 0 <= i < |s| :: !MustEncode(s[i]) {
      NothingToEncode(s);
      return s;
    }
    out := "";
    assert s[0..] == s;
    for i := 0 to |s|
      invariant EncodeName(s) == out + EncodeName(s[i..])
    {
      EncodeNext(out, s, i);
      if MustEncode(s[i]) {
        out := PushEscaped(out, EncodeScalar(s[i] as nat));
      } else {
        out := out + [s[i]];
      }
    }
    assert out + "" == out;
  }

  lemma EncodeNext(out: string, s: string, i: nat)
    requires i < |s|
    ensures out + EncodeName(s[i..]) == out + EncodedChar(s[i]) + EncodeName(s[i + 1..])
  {
    assert s[i..][1..] == s[i + 1..];
    assert out + (EncodedChar(s[i]) + EncodeName(s[i + 1..])) == out + EncodedChar(s[i]) + EncodeName(s[i + 1..]);
  }

  method PushEscaped(out: string, bytes: seq<Byte>) returns (pushed: string)
    ensures pushed == out + Escape(bytes)
  {
    pushed := out;
    assert bytes[0..] == bytes;
    for j := 0 to |bytes|
      invariant out + Escape(bytes) == pushed + Escape(bytes[j..])
    {
      assert bytes[j..][1..] == bytes[j + 1..];
      pushed := pushed + "%" + [UPPER[bytes[j] / 16]] + [UPPER[bytes[j] % 16]];
    }
  }

  method DecodeSegmentLoop(s: string) returns (r: Option<string>)
    ensures r == DecodeSegment(s)
  {
    var bytes := Encode(s);
    var out: seq<Byte> := [];
    var i := 0;
    assert bytes[0..] == bytes;
    Prefix([], Unescape(bytes));
    while i < |bytes|
      invariant i <= |bytes|
      invariant Unescape(bytes) == Prefixed(out, Unescape(bytes[i..]))
    {
      if bytes[i] == PERCENT {
        if |bytes| < i + 3 || HexValue(bytes[i + 1]).None? || HexValue(bytes[i + 2]).None? {
          return None;
        }
        var b: Byte := 16 * HexValue(bytes[i + 1]).value + HexValue(bytes[i + 2]).value;
        assert bytes[i..][3..] == bytes[i + 3..];
        PrefixedCons(out, b, Unescape(bytes[i + 3..]));
        out := out + [b];
        i := i + 3;
      } else {
        assert bytes[i..][1..] == bytes[i + 1..];
        PrefixedCons(out, bytes[i], Unescape(bytes[i + 1..]));
        out := out + [bytes[i]];
        i := i + 1;
      }
    }
    assert out + [] == out;
    return Decode(out);
  }

  function Prefixed(out: seq<Byte>, rest: Option<seq<Byte>>): Option<seq<Byte>> {
    match rest
    case None => None
    case Some(bytes) => Some(out + bytes)
  }

  lemma Prefix(out: seq<Byte>, rest: Option<seq<Byte>>)
    requires out == []
    ensures Prefixed(out, rest) == rest
  {
    if rest.Some? {
      assert [] + rest.value == rest.value;
    }
  }

  lemma PrefixedCons(out: seq<Byte>, b: Byte, rest: Option<seq<Byte>>)
    ensures Prefixed(out, Cons(b, rest)) == Prefixed(out + [b], rest)
  {
    if rest.Some? {
      assert out + ([b] + rest.value) == out + [b] + rest.value;
    }
  }

  // ---- the encoding inverts ----

  lemma {:induction false} NothingToEncode(s: string)
    requires forall i | 0 <= i < |s| :: !MustEncode(s[i])
    ensures EncodeName(s) == s
  {
    if s != "" {
      NothingToEncode(s[1..]);
      assert s == [s[0]] + s[1..];
    }
  }

  lemma Ascii(c: char)
    requires c as nat < 0x80
    ensures Encode([c]) == [c as nat as Byte]
  {
    EncodeChar(c);
  }

  lemma UpperIsHex(n: nat)
    requires n < 16
    ensures (UPPER[n] as nat) < 0x80 && HexValue(UPPER[n] as nat as Byte) == Some(n)
    ensures (LOWER[n] as nat) < 0x80 && HexValue(LOWER[n] as nat as Byte) == Some(n)
  {
  }

  // The bytes of one escape.
  lemma EscapeBytes(b: Byte, rest: string)
    ensures Encode("%" + [UPPER[b / 16]] + [UPPER[b % 16]] + rest)
            == [PERCENT, UPPER[b / 16] as nat as Byte, UPPER[b % 16] as nat as Byte] + Encode(rest)
  {
    var hi, lo := UPPER[b / 16], UPPER[b % 16];
    UpperIsHex(b / 16);
    UpperIsHex(b % 16);
    Ascii('%');
    Ascii(hi);
    Ascii(lo);
    EncodeConcat("%", [hi]);
    EncodeConcat("%" + [hi], [lo]);
    EncodeConcat("%" + [hi] + [lo], rest);
  }

  lemma {:induction false} UnescapeEscape(bytes: seq<Byte>, rest: string)
    ensures Unescape(Encode(Escape(bytes) + rest)) == Prefixed(bytes, Unescape(Encode(rest)))
  {
    if bytes == [] {
      assert "" + rest == rest;
      Prefix([], Unescape(Encode(rest)));
    } else {
      EscapedByte(bytes[0], Escape(bytes[1..]), rest);
      UnescapeEscape(bytes[1..], rest);
      ConsPrefixed(bytes[0], bytes[1..], Unescape(Encode(rest)));
      assert [bytes[0]] + bytes[1..] == bytes;
    }
  }

  lemma EscapedByte(b: Byte, escaped: string, rest: string)
    ensures Unescape(Encode("%" + [UPPER[b / 16]] + [UPPER[b % 16]] + escaped + rest))
            == Cons(b, Unescape(Encode(escaped + rest)))
  {
    var tail := escaped + rest;
    assert "%" + [UPPER[b / 16]] + [UPPER[b % 16]] + escaped + rest == "%" + [UPPER[b / 16]] + [UPPER[b % 16]] + tail;
    EscapeBytes(b, tail);
    UpperIsHex(b / 16);
    UpperIsHex(b % 16);
    assert Encode("%" + [UPPER[b / 16]] + [UPPER[b % 16]] + tail)[3..] == Encode(tail);
  }

  lemma ConsPrefixed(b: Byte, bytes: seq<Byte>, rest: Option<seq<Byte>>)
    ensures Cons(b, Prefixed(bytes, rest)) == Prefixed([b] + bytes, rest)
  {
    if rest.Some? {
      assert [b] + (bytes + rest.value) == [b] + bytes + rest.value;
    }
  }

  // Bytes with no percent sign stand for themselves.
  lemma {:induction false} UnescapePlain(bytes: seq<Byte>, rest: seq<Byte>)
    requires PERCENT !in bytes
    ensures Unescape(bytes + rest) == Prefixed(bytes, Unescape(rest))
  {
    if bytes == [] {
      assert [] + rest == rest;
      Prefix([], Unescape(rest));
    } else {
      assert (bytes + rest)[1..] == bytes[1..] + rest;
      assert bytes[0] in bytes;
      UnescapePlain(bytes[1..], rest);
      ConsPrefixed(bytes[0], bytes[1..], Unescape(rest));
      assert [bytes[0]] + bytes[1..] == bytes;
    }
  }

  lemma {:induction false} UnescapeEncoded(s: string)
    ensures Unescape(Encode(EncodeName(s))) == Some(Encode(s))
  {
    if s != "" {
      var bytes, rest := EncodeScalar(s[0] as nat), EncodeName(s[1..]);
      UnescapeEncoded(s[1..]);
      if MustEncode(s[0]) {
        UnescapeEscape(bytes, rest);
      } else {
        EncodeConcat([s[0]], rest);
        EncodeChar(s[0]);
        UnescapePlain(bytes, Encode(rest));
      }
    }
  }

  // Decoding an encoded name gives the name back, whatever it holds.
  lemma DecodeInvertsEncode(s: string)
    ensures DecodeSegment(EncodeName(s)) == Some(s)
  {
    UnescapeEncoded(s);
    DecodeEncodes(s);
  }

  // So two names never share a spelling.
  lemma EncodeNameInjective(s: string, t: string)
    ensures EncodeName(s) == EncodeName(t) <==> s == t
  {
    DecodeInvertsEncode(s);
    DecodeInvertsEncode(t);
  }

  // Nothing in an encoded name needs encoding but the percent signs of its escapes: whatever
  // the name holds, it stays in one path segment.
  lemma {:induction false} EncodedIsSafe(s: string)
    ensures forall i | 0 <= i < |EncodeName(s)| :: EncodeName(s)[i] == '%' || !MustEncode(EncodeName(s)[i])
  {
    if s != "" {
      EncodedIsSafe(s[1..]);
      if MustEncode(s[0]) {
        EscapedIsSafe(EncodeScalar(s[0] as nat));
      }
    }
  }

  lemma {:induction false} EscapedIsSafe(bytes: seq<Byte>)
    ensures forall i | 0 <= i < |Escape(bytes)| :: Escape(bytes)[i] == '%' || !MustEncode(Escape(bytes)[i])
  {
    if bytes != [] {
      EscapedIsSafe(bytes[1..]);
      UpperIsPlain(bytes[0] / 16);
      UpperIsPlain(bytes[0] % 16);
    }
  }

  lemma UpperIsPlain(n: nat)
    requires n < 16
    ensures !MustEncode(UPPER[n])
  {
  }
}

module ContractIris {
  import opened Wrappers
  import opened Text
  import opened Utf8
  import opened Names

  datatype Verb = Source | Sink | Exists | Delete | Meta

  function VerbSegment(verb: Verb): string {
    match verb
    case Source => "source"
    case Sink => "sink"
    case Exists => "exists"
    case Delete => "delete"
    case Meta => "meta"
  }

  function ParseVerb(name: string): Option<Verb> {
    if name == "source" then Some(Source)
    else if name == "sink" then Some(Sink)
    else if name == "exists" then Some(Exists)
    else if name == "delete" then Some(Delete)
    else if name == "meta" then Some(Meta)
    else None
  }

  function StripPrefix(s: string, prefix: string): Option<string> {
    if prefix <= s then Some(s[|prefix|..]) else None
  }

  // Split at the first occurrence of `c`.
  function SplitOnce(s: string, c: char): Option<(string, string)> {
    match FindChar(s, c)
    case None => None
    case Some(i) => Some((s[..i], s[i + 1..]))
  }

  // Split at the last occurrence of `pattern` starting before `from`.
  function LastBefore(s: string, pattern: string, from: nat): (found: Option<nat>)
    requires from <= |s| + 1
    ensures found.Some? ==> found.value < from && OccursAt(s, pattern, found.value)
                            && forall at: nat | found.value < at < from :: !OccursAt(s, pattern, at)
    ensures found.None? ==> forall at: nat | at < from :: !OccursAt(s, pattern, at)
  {
    if from == 0 then None
    else if OccursAt(s, pattern, from - 1) then Some(from - 1)
    else LastBefore(s, pattern, from - 1)
  }

  function RSplitOnce(s: string, pattern: string): Option<(string, string)> {
    match LastBefore(s, pattern, |s| + 1)
    case None => None
    case Some(i) => Some((s[..i], s[i + |pattern|..]))
  }

  const MATCH_PREFIX: string := "urn:ikigai:match:"
  const CONTRACT_PREFIX: string := "urn:ikigai:contract:"

  // ---- match IRIs ----

  function MatchIri(verb: Verb, pattern: string): string {
    MATCH_PREFIX + (VerbSegment(verb) + ":" + EncodeName(pattern))
  }

  function ParseMatchIri(iri: string): Option<(Verb, string)> {
    match StripPrefix(iri, MATCH_PREFIX)
    case None => None
    case Some(rest) =>
      match SplitOnce(rest, ':')
      case None => None
      case Some((verb, pattern)) =>
        if ParseVerb(verb).Some? && DecodeSegment(pattern).Some?
        then Some((ParseVerb(verb).value, DecodeSegment(pattern).value)) else None
  }

  function CanonicalMatchIri(iri: string): Option<string> {
    match ParseMatchIri(iri)
    case None => None
    case Some((verb, pattern)) => Some(MatchIri(verb, pattern))
  }

  lemma VerbsParse(verb: Verb)
    ensures ParseVerb(VerbSegment(verb)) == Some(verb) && ':' !in VerbSegment(verb)
  {
  }

  // A match IRI parses back to exactly the door and verb that made it.
  lemma MatchIriParsesBack(verb: Verb, pattern: string)
    ensures ParseMatchIri(MatchIri(verb, pattern)) == Some((verb, pattern))
  {
    var word, encoded := VerbSegment(verb), EncodeName(pattern);
    var rest := word + ":" + encoded;
    VerbsParse(verb);
    DecodeInvertsEncode(pattern);
    assert MatchIri(verb, pattern)[|MATCH_PREFIX|..] == rest;
    assert rest[..|word|] == word;
    FindCharIs(rest, ':', |word|);
    assert rest[|word| + 1..] == encoded;
  }

  // Canonicalizing is idempotent and keeps the meaning, and equates two spellings exactly when
  // they parse alike.
  lemma CanonicalMatchIriIsNormal(iri: string, other: string)
    requires ParseMatchIri(iri).Some?
    ensures CanonicalMatchIri(iri).Some?
    ensures ParseMatchIri(CanonicalMatchIri(iri).value) == ParseMatchIri(iri)
    ensures CanonicalMatchIri(CanonicalMatchIri(iri).value) == CanonicalMatchIri(iri)
    ensures CanonicalMatchIri(iri) == CanonicalMatchIri(other) <==> ParseMatchIri(iri) == ParseMatchIri(other)
  {
    var (verb, pattern) := ParseMatchIri(iri).value;
    MatchIriParsesBack(verb, pattern);
    if ParseMatchIri(other).Some? {
      var (verb', pattern') := ParseMatchIri(other).value;
      MatchIriParsesBack(verb', pattern');
    }
  }

  // ---- content ids ----

  type Digest = bytes: seq<Byte> | |bytes| == 32 witness seq(32, _ => 0)

  function LowerHex(bytes: seq<Byte>): string {
    if bytes == [] then "" else [LOWER[bytes[0] / 16]] + [LOWER[bytes[0] % 16]] + LowerHex(bytes[1..])
  }

  function DigestText(digest: Digest): string { "b3:" + LowerHex(digest) }

  function CharHex(c: char): Option<nat> {
    if c as nat < 0x80 then HexValue(c as nat as Byte) else None
  }

  // Pairs of hex digits, and nothing but.
  function DecodeHex(s: string): Option<seq<Byte>> {
    if s == "" then Some([])
    else if |s| < 2 || CharHex(s[0]).None? || CharHex(s[1]).None? then None
    else Cons(16 * CharHex(s[0]).value + CharHex(s[1]).value, DecodeHex(s[2..]))
  }

  function ParseDigest(s: string): Option<Digest> {
    match StripPrefix(s, "b3:")
    case None => None
    case Some(hex) =>
      match DecodeHex(hex)
      case None => None
      case Some(bytes) => if |bytes| == 32 then Some(bytes) else None
  }

  lemma {:induction false} LowerHexInverts(bytes: seq<Byte>)
    ensures DecodeHex(LowerHex(bytes)) == Some(bytes) && ':' !in LowerHex(bytes)
  {
    if bytes != [] {
      LowerHexInverts(bytes[1..]);
      HexByte(bytes[0], LowerHex(bytes[1..]));
      assert [bytes[0]] + bytes[1..] == bytes;
    }
  }

  // Two digits read as the byte they spell.
  lemma HexByte(b: Byte, rest: string)
    ensures var s := [LOWER[b / 16], LOWER[b % 16]] + rest;
            && DecodeHex(s) == (match DecodeHex(rest) case None => None case Some(bytes) => Some([b] + bytes))
            && (':' in s ==> ':' in rest)
  {
    var s := [LOWER[b / 16], LOWER[b % 16]] + rest;
    UpperIsHex(b / 16);
    UpperIsHex(b % 16);
    LowerHasNoColon(b / 16);
    LowerHasNoColon(b % 16);
    assert s[2..] == rest;
  }

  lemma LowerHasNoColon(n: nat)
    requires n < 16
    ensures LOWER[n] != ':'
  {
  }

  lemma DigestParsesBack(digest: Digest)
    ensures ParseDigest(DigestText(digest)) == Some(digest)
  {
    LowerHexInverts(digest);
    assert DigestText(digest)[3..] == LowerHex(digest);
  }

  // ---- contract IRIs ----

  function ContractIri(id: string, verb: Verb, digest: Digest): string {
    CONTRACT_PREFIX + (EncodeName(id) + ":" + VerbSegment(verb) + ":" + DigestText(digest))
  }

  // Parsed from the right, because an id may hold colons of its own.
  function ParseContractIri(iri: string): Option<(string, Verb, Digest)> {
    match StripPrefix(iri, CONTRACT_PREFIX)
    case None => None
    case Some(rest) =>
      match RSplitOnce(rest, ":b3:")
      case None => None
      case Some((head, hex)) =>
        match RSplitOnce(head, ":")
        case None => None
        case Some((id, verb)) =>
          if ParseDigest("b3:" + hex).Some? && DecodeSegment(id).Some? && ParseVerb(verb).Some?
          then Some((DecodeSegment(id).value, ParseVerb(verb).value, ParseDigest("b3:" + hex).value)) else None
  }

  function CanonicalContractIri(iri: string): Option<string> {
    match ParseContractIri(iri)
    case None => None
    case Some((id, verb, digest)) => Some(ContractIri(id, verb, digest))
  }

  // A pattern that ends in a colon does not occur past the last colon.
  lemma NotLater(s: string, pattern: string, at: nat, later: nat)
    requires pattern != "" && pattern[|pattern| - 1] == ':'
    requires at + |pattern| <= |s| && at < later && ':' !in s[at + |pattern|..]
    ensures !OccursAt(s, pattern, later)
  {
    var last := later + |pattern| - 1;
    if last < |s| {
      assert s[at + |pattern|..][last - (at + |pattern|)] == s[last];
      assert s[later..later + |pattern|][|pattern| - 1] == s[last];
    }
  }

  lemma LastOccurrence(before: string, pattern: string, after: string)
    requires pattern != "" && pattern[|pattern| - 1] == ':' && ':' !in after
    ensures RSplitOnce(before + pattern + after, pattern) == Some((before, after))
  {
    var s := before + pattern + after;
    var at := |before|;
    assert s[at..at + |pattern|] == pattern && s[at + |pattern|..] == after && s[..at] == before;
    assert OccursAt(s, pattern, at);
    var found := LastBefore(s, pattern, |s| + 1).value;
    if at < found {
      NotLater(s, pattern, at, found);
    }
  }

  // A contract IRI parses back to exactly what made it, even when the id holds colons.
  lemma ContractIriParsesBack(id: string, verb: Verb, digest: Digest)
    ensures ParseContractIri(ContractIri(id, verb, digest)) == Some((id, verb, digest))
  {
    var encoded, word, hex := EncodeName(id), VerbSegment(verb), LowerHex(digest);
    DecodeInvertsEncode(id);
    VerbsParse(verb);
    LowerHexInverts(digest);
    DigestParsesBack(digest);
    IriSplits(encoded, word, hex);
    assert ContractIri(id, verb, digest) == CONTRACT_PREFIX + (encoded + ":" + word + ":" + ("b3:" + hex));
  }

  lemma IriSplits(encoded: string, word: string, hex: string)
    requires ':' !in word && ':' !in hex
    ensures var rest := encoded + ":" + word + ":" + ("b3:" + hex);
            && StripPrefix(CONTRACT_PREFIX + rest, CONTRACT_PREFIX) == Some(rest)
            && RSplitOnce(rest, ":b3:") == Some((encoded + ":" + word, hex))
            && RSplitOnce(encoded + ":" + word, ":") == Some((encoded, word))
  {
    var head := encoded + ":" + word;
    var rest := head + ":" + ("b3:" + hex);
    assert (CONTRACT_PREFIX + rest)[|CONTRACT_PREFIX|..] == rest;
    assert rest == head + ":b3:" + hex;
    LastOccurrence(head, ":b3:", hex);
    LastOccurrence(encoded, ":", word);
  }

  lemma CanonicalContractIriIsNormal(iri: string, other: string)
    requires ParseContractIri(iri).Some?
    ensures CanonicalContractIri(iri).Some?
    ensures ParseContractIri(CanonicalContractIri(iri).value) == ParseContractIri(iri)
    ensures CanonicalContractIri(CanonicalContractIri(iri).value) == CanonicalContractIri(iri)
    ensures CanonicalContractIri(iri) == CanonicalContractIri(other)
            <==> ParseContractIri(iri) == ParseContractIri(other)
  {
    var (id, verb, digest) := ParseContractIri(iri).value;
    ContractIriParsesBack(id, verb, digest);
    if ParseContractIri(other).Some? {
      var (id', verb', digest') := ParseContractIri(other).value;
      ContractIriParsesBack(id', verb', digest');
    }
  }
}
