// UTF-8 (RFC 3629): the bytes of a string, and the strict decoding of bytes.

module Utf8 {
  import opened Wrappers

  type Byte = n: int | 0 <= n < 256

  predicate Scalar(n: int) {
    0 <= n < 0xD800 || 0xE000 <= n < 0x11_0000
  }

  function EncodeScalar(n: nat): (bytes: seq<Byte>)
    requires n < 0x11_0000
    ensures bytes != []
  {
    if n < 0x80 then [n]
    else if n < 0x800 then [0xC0 + n / 0x40, 0x80 + n % 0x40]
    else if n < 0x1_0000 then [0xE0 + n / 0x1000, 0x80 + n / 0x40 % 0x40, 0x80 + n % 0x40]
    else [0xF0 + n / 0x4_0000, 0x80 + n / 0x1000 % 0x40, 0x80 + n / 0x40 % 0x40, 0x80 + n % 0x40]
  }

  function Encode(s: string): seq<Byte> {
    if s == "" then [] else EncodeScalar(s[0] as nat) + Encode(s[1..])
  }

  // How many bytes the first one announces, or none for a byte no encoding starts with.
  function Announced(first: Byte): (length: nat)
    ensures length <= 4
  {
    if first < 0x80 then 1
    else if first < 0xC0 then 0
    else if first < 0xE0 then 2
    else if first < 0xF0 then 3
    else if first < 0xF8 then 4
    else 0
  }

  // The scalar announced bytes would spell, before anything is checked.
  function Spelled(bytes: seq<Byte>): int
    requires bytes != [] && 0 < Announced(bytes[0]) == |bytes|
  {
    var first := bytes[0] as int;
    if |bytes| == 1 then first
    else if |bytes| == 2 then (first - 0xC0) * 0x40 + Low(bytes[1])
    else if |bytes| == 3 then (first - 0xE0) * 0x1000 + Low(bytes[1]) * 0x40 + Low(bytes[2])
    else (first - 0xF0) * 0x4_0000 + Low(bytes[1]) * 0x1000 + Low(bytes[2]) * 0x40 + Low(bytes[3])
  }

  // The six bits a continuation byte carries.
  function Low(b: Byte): int { b as int - 0x80 }

  // Strict: a sequence is taken only when it is the one encoding of the scalar it spells.
  function Head(bytes: seq<Byte>): (head: Option<char>)
    requires bytes != []
    ensures head.Some? ==> EncodeScalar(head.value as nat) <= bytes
  {
    var length := Announced(bytes[0]);
    if length == 0 || length > |bytes| then None
    else
      var n := Spelled(bytes[..length]);
      if Scalar(n) && EncodeScalar(n) == bytes[..length] then Some(n as char) else None
  }

  function Decode(bytes: seq<Byte>): Option<string>
    decreases |bytes|
  {
    if bytes == [] then Some("")
    else
      match Head(bytes)
      case None => None
      case Some(c) =>
        match Decode(bytes[|EncodeScalar(c as nat)|..])
        case None => None
        case Some(rest) => Some([c] + rest)
  }

  lemma EncodedShape(n: nat)
    requires n < 0x11_0000
    ensures var bytes := EncodeScalar(n); Announced(bytes[0]) == |bytes| && Spelled(bytes) == n
  {
    var a, b, c := n / 0x40, n / 0x1000, n / 0x4_0000;
    assert n == a * 0x40 + n % 0x40;
    assert a == b * 0x40 + a % 0x40;
    assert b == c * 0x40 + b % 0x40;
  }

  lemma HeadEncoded(c: char, rest: seq<Byte>)
    ensures Head(EncodeScalar(c as nat) + rest) == Some(c)
  {
    var head := EncodeScalar(c as nat);
    EncodedShape(c as nat);
    assert (head + rest)[..|head|] == head;
  }

  lemma {:induction false} DecodeEncodes(s: string)
    ensures Decode(Encode(s)) == Some(s)
  {
    if s != "" {
      var head, tail := EncodeScalar(s[0] as nat), Encode(s[1..]);
      HeadEncoded(s[0], tail);
      assert (head + tail)[|head|..] == tail;
      DecodeEncodes(s[1..]);
      assert s == [s[0]] + s[1..];
    }
  }

  lemma EncodeCons(c: char, rest: string)
    ensures Encode([c] + rest) == EncodeScalar(c as nat) + Encode(rest)
  {
    assert ([c] + rest)[1..] == rest;
  }

  // What a decoding step takes off the front.
  lemma DecodeStep(bytes: seq<Byte>)
    requires bytes != [] && Decode(bytes).Some?
    ensures Head(bytes).Some?
    ensures var head := EncodeScalar(Head(bytes).value as nat);
            && head <= bytes && bytes == head + bytes[|head|..] && Decode(bytes[|head|..]).Some?
            && Decode(bytes).value == [Head(bytes).value] + Decode(bytes[|head|..]).value
  {
  }

  lemma {:induction false} EncodeDecodes(bytes: seq<Byte>)
    requires Decode(bytes).Some?
    ensures Encode(Decode(bytes).value) == bytes
    decreases |bytes|
  {
    if bytes != [] {
      DecodeStep(bytes);
      var c := Head(bytes).value;
      var tail := bytes[|EncodeScalar(c as nat)|..];
      EncodeDecodes(tail);
      EncodeCons(c, Decode(tail).value);
    }
  }

  // Decoding gives `s` exactly for the bytes of `s`.
  lemma DecodeIffEncode(bytes: seq<Byte>, s: string)
    ensures Decode(bytes) == Some(s) <==> Encode(s) == bytes
  {
    if Decode(bytes) == Some(s) {
      EncodeDecodes(bytes);
    }
    DecodeEncodes(s);
  }

  lemma {:induction false} EncodeConcat(s: string, t: string)
    ensures Encode(s + t) == Encode(s) + Encode(t)
  {
    if s == "" {
      assert s + t == t;
    } else {
      EncodeConcat(s[1..], t);
      assert (s + t)[1..] == s[1..] + t;
      assert EncodeScalar(s[0] as nat) + (Encode(s[1..]) + Encode(t))
             == EncodeScalar(s[0] as nat) + Encode(s[1..]) + Encode(t);
    }
  }

  lemma EncodeChar(c: char)
    ensures Encode([c]) == EncodeScalar(c as nat)
  {
    assert [c][1..] == "";
  }

  // Distinct strings have distinct bytes.
  lemma EncodeInjective(s: string, t: string)
    requires Encode(s) == Encode(t)
    ensures s == t
  {
    DecodeEncodes(s);
    DecodeEncodes(t);
  }
}
