/**
 The opaque page token: the UTF-8 bytes of a JSON object with one member, in
 unpadded base64url. A Dafny string is a sequence of Unicode scalar values, so
 every string here is valid Unicode text; bytes and sextets are naturals.
 */
module PageToken {
  import opened Wrappers

  type Bytes = seq<nat>

  // ---------------------------------------------------------------- base64url, section 5 of RFC 4648

  function SextetChar(v: nat): char {
    if v < 26 then 'A' + v as char
    else if v < 52 then 'a' + (v - 26) as char
    else if v < 62 then '0' + (v - 52) as char
    else if v == 62 then '-'
    else '_'
  }

  /** The alphabet is made of the letters, the digits, "-" and "_", in this order. */
  lemma SextetOrder(v: nat)
    requires v < 64
    ensures SextetChar(v) ==
      if v == 0 then 'A' else if v == 26 then 'a' else if v == 52 then '0'
      else if v == 62 then '-' else if v == 63 then '_'
      else SextetChar(v - 1) + 1 as char
  {
  }

  function CharSextet(c: char): Option<nat> {
    if 'A' <= c <= 'Z' then Some(c as nat - 'A' as nat)
    else if 'a' <= c <= 'z' then Some(c as nat - 'a' as nat + 26)
    else if '0' <= c <= '9' then Some(c as nat - '0' as nat + 52)
    else if c == '-' then Some(62)
    else if c == '_' then Some(63)
    else None
  }

  /** Unpadded encoding: a last group of one or two bytes becomes two or three
      characters (section 3.2 of RFC 4648). */
  function Base64Encode(bytes: Bytes): string {
    if bytes == [] then ""
    else if |bytes| == 1 then
      [SextetChar(bytes[0] / 4), SextetChar(bytes[0] % 4 * 16)]
    else if |bytes| == 2 then
      [SextetChar(bytes[0] / 4), SextetChar(bytes[0] % 4 * 16 + bytes[1] / 16), SextetChar(bytes[1] % 16 * 4)]
    else
      [SextetChar(bytes[0] / 4), SextetChar(bytes[0] % 4 * 16 + bytes[1] / 16),
       SextetChar(bytes[1] % 16 * 4 + bytes[2] / 64), SextetChar(bytes[2] % 64)] + Base64Encode(bytes[3..])
  }

  /** The decoder skips line breaks. */
  function WithoutLineBreaks(text: string): string {
    if text == "" then ""
    else (if text[0] == '\r' || text[0] == '\n' then "" else [text[0]]) + WithoutLineBreaks(text[1..])
  }

  function Sextets(text: string): Option<seq<nat>> {
    if text == "" then Some([])
    else
      var first, rest := CharSextet(text[0]), Sextets(text[1..]);
      if first.None? || rest.None? then None else Some([first.value] + rest.value)
  }

  /** Four sextets make three bytes; trailing bits of a short group are dropped. */
  function SextetsToBytes(v: seq<nat>): Option<Bytes> {
    if v == [] then Some([])
    else if |v| == 1 then None
    else if |v| == 2 then Some([v[0] * 4 + v[1] / 16])
    else if |v| == 3 then Some([v[0] * 4 + v[1] / 16, v[1] % 16 * 16 + v[2] / 4])
    else
      var rest := SextetsToBytes(v[4..]);
      if rest.None? then None
      else Some([v[0] * 4 + v[1] / 16, v[1] % 16 * 16 + v[2] / 4, v[2] % 4 * 64 + v[3]] + rest.value)
  }

  function Base64Decode(text: string): Option<Bytes> {
    var sextets := Sextets(WithoutLineBreaks(text));
    if sextets.None? then None else SextetsToBytes(sextets.value)
  }

  ghost predicate IsBytes(bytes: Bytes) {
    forall i :: 0 <= i < |bytes| ==> bytes[i] < 256
  }

  lemma SextetRoundTrip(v: nat)
    requires v < 64
    ensures CharSextet(SextetChar(v)) == Some(v)
    ensures SextetChar(v) != '\r' && SextetChar(v) != '\n'
  {
  }

  lemma {:induction false} NoLineBreaks(text: string)
    requires forall i :: 0 <= i < |text| ==> CharSextet(text[i]).Some?
    ensures WithoutLineBreaks(text) == text
  {
    if text != "" {
      assert CharSextet(text[0]).Some?;
      NoLineBreaks(text[1..]);
      assert text == [text[0]] + text[1..];
    }
  }

  /** The sextets of a byte string. */
  function Split(bytes: Bytes): seq<nat> {
    if bytes == [] then []
    else if |bytes| == 1 then [bytes[0] / 4, bytes[0] % 4 * 16]
    else if |bytes| == 2 then [bytes[0] / 4, bytes[0] % 4 * 16 + bytes[1] / 16, bytes[1] % 16 * 4]
    else
      [bytes[0] / 4, bytes[0] % 4 * 16 + bytes[1] / 16, bytes[1] % 16 * 4 + bytes[2] / 64, bytes[2] % 64] +
      Split(bytes[3..])
  }

  function Chars(v: seq<nat>): string {
    if v == [] then "" else [SextetChar(v[0])] + Chars(v[1..])
  }

  lemma {:induction false} CharsOfGroup(a: nat, b: nat, c: nat, d: nat, rest: seq<nat>)
    ensures Chars([a, b, c, d] + rest) == [SextetChar(a), SextetChar(b), SextetChar(c), SextetChar(d)] + Chars(rest)
  {
    assert ([a, b, c, d] + rest)[1..] == [b, c, d] + rest;
    assert ([b, c, d] + rest)[1..] == [c, d] + rest;
    assert ([c, d] + rest)[1..] == [d] + rest;
    assert ([d] + rest)[1..] == rest;
    assert Chars([d] + rest) == [SextetChar(d)] + Chars(rest);
    assert Chars([c, d] + rest) == [SextetChar(c)] + Chars([d] + rest);
    assert Chars([b, c, d] + rest) == [SextetChar(b)] + Chars([c, d] + rest);
  }

  lemma {:induction false} SplitIsSextets(bytes: Bytes)
    requires IsBytes(bytes)
    ensures forall i :: 0 <= i < |Split(bytes)| ==> Split(bytes)[i] < 64
  {
    if |bytes| > 2 {
      SplitIsSextets(bytes[3..]);
    }
  }

  lemma {:induction false} EncodeIsSplit(bytes: Bytes)
    requires IsBytes(bytes)
    ensures Base64Encode(bytes) == Chars(Split(bytes))
    ensures forall i :: 0 <= i < |Split(bytes)| ==> Split(bytes)[i] < 64
  {
    SplitIsSextets(bytes);
    if |bytes| == 1 {
      var v := Split(bytes);
      assert Chars(v[1..]) == [SextetChar(v[1])] + Chars([]);
    } else if |bytes| == 2 {
      var v := Split(bytes);
      assert v[1..][1..] == [v[2]];
      assert Chars([v[2]]) == [SextetChar(v[2])] + Chars([]);
    } else if |bytes| > 2 {
      EncodeIsSplit(bytes[3..]);
      var v := Split(bytes);
      CharsOfGroup(v[0], v[1], v[2], v[3], Split(bytes[3..]));
    }
  }

  lemma {:induction false} CharsRoundTrip(v: seq<nat>)
    requires forall i :: 0 <= i < |v| ==> v[i] < 64
    ensures Sextets(Chars(v)) == Some(v)
    ensures forall i :: 0 <= i < |Chars(v)| ==> CharSextet(Chars(v)[i]).Some?
  {
    if v != [] {
      SextetRoundTrip(v[0]);
      CharsRoundTrip(v[1..]);
      assert v == [v[0]] + v[1..];
    }
  }

  lemma GroupRoundTrip(a: nat, b: nat, c: nat)
    requires a < 256 && b < 256 && c < 256
    ensures a / 4 * 4 + (a % 4 * 16 + b / 16) / 16 == a
    ensures (a % 4 * 16 + b / 16) % 16 * 16 + (b % 16 * 4 + c / 64) / 4 == b
    ensures (b % 16 * 4 + c / 64) % 4 * 64 + c % 64 == c
  {
  }

  lemma {:induction false} SplitRoundTrip(bytes: Bytes)
    requires IsBytes(bytes)
    ensures SextetsToBytes(Split(bytes)) == Some(bytes)
  {
    if |bytes| == 1 {
      assert bytes == [bytes[0]];
    } else if |bytes| == 2 {
      assert bytes == [bytes[0], bytes[1]];
    } else if |bytes| > 2 {
      SplitRoundTrip(bytes[3..]);
      SplitGroup(bytes[0], bytes[1], bytes[2], bytes[3..], Split(bytes), Split(bytes[3..]));
      FirstGroup(bytes, bytes[3..]);
    }
  }

  lemma SplitGroup(a: nat, b: nat, c: nat, rest: Bytes, v: seq<nat>, tail: seq<nat>)
    requires a < 256 && b < 256 && c < 256
    requires v == [a / 4, a % 4 * 16 + b / 16, b % 16 * 4 + c / 64, c % 64] + tail
    requires SextetsToBytes(tail) == Some(rest)
    ensures SextetsToBytes(v) == Some([a, b, c] + rest)
  {
    GroupRoundTrip(a, b, c);
    JoinGroup(a / 4, a % 4 * 16 + b / 16, b % 16 * 4 + c / 64, c % 64, a, b, c, tail, rest);
  }

  lemma FirstGroup(bytes: Bytes, rest: Bytes)
    requires |bytes| > 2 && rest == bytes[3..]
    ensures bytes == [bytes[0], bytes[1], bytes[2]] + rest
  {
  }

  lemma JoinGroup(p: nat, q: nat, r: nat, d: nat, a: nat, b: nat, c: nat, rest: seq<nat>, bytes: Bytes)
    requires SextetsToBytes(rest) == Some(bytes)
    requires p * 4 + q / 16 == a && q % 16 * 16 + r / 4 == b && r % 4 * 64 + d == c
    ensures SextetsToBytes([p, q, r, d] + rest) == Some([a, b, c] + bytes)
  {
    assert ([p, q, r, d] + rest)[4..] == rest;
  }

  lemma Base64RoundTrip(bytes: Bytes)
    requires IsBytes(bytes)
    ensures Base64Decode(Base64Encode(bytes)) == Some(bytes)
  {
    EncodeIsSplit(bytes);
    CharsRoundTrip(Split(bytes));
    NoLineBreaks(Chars(Split(bytes)));
    SplitRoundTrip(bytes);
  }

  /** The bits that four characters stand for, most significant first. */
  function BitsOf(chars: string): Option<nat>
    requires |chars| == 4
  {
    var v := Sextets(chars);
    if v.None? || |v.value| != 4 then None
    else Some(v.value[0] * 0x4_0000 + v.value[1] * 0x1000 + v.value[2] * 0x40 + v.value[3])
  }

  /** Three bytes are one group of 24 bits, and so are the four characters that they
      become; ... */
  lemma GroupMeaning(bytes: Bytes)
    requires IsBytes(bytes) && |bytes| >= 3
    ensures
      var e := Base64Encode(bytes);
      && |e| >= 4 && e[4..] == Base64Encode(bytes[3..])
      && BitsOf(e[..4]) == Some(bytes[0] * 0x1_0000 + bytes[1] * 0x100 + bytes[2])
  {
    var group := FirstGroupOf(bytes);
    SplitText(group, Base64Encode(bytes[3..]));
  }

  lemma FirstGroupOf(bytes: Bytes) returns (group: string)
    requires IsBytes(bytes) && |bytes| >= 3
    ensures |group| == 4 && Base64Encode(bytes) == group + Base64Encode(bytes[3..])
    ensures BitsOf(group) == Some(bytes[0] * 0x1_0000 + bytes[1] * 0x100 + bytes[2])
  {
    var a, b, c := bytes[0], bytes[1], bytes[2];
    BitsOfGroup(a, b, c);
    group := [SextetChar(a / 4), SextetChar(a % 4 * 16 + b / 16), SextetChar(b % 16 * 4 + c / 64), SextetChar(c % 64)];
  }

  lemma SplitText(a: string, b: string)
    ensures (a + b)[..|a|] == a && (a + b)[|a|..] == b
  {
  }

  /** ... a short last group is filled up with zero bits, whose characters are left out
      (section 4 of RFC 4648). */
  lemma LastGroupMeaning(a: nat, b: nat)
    requires a < 256 && b < 256
    ensures |Base64Encode([a])| == 2 && BitsOf(Base64Encode([a]) + "AA") == Some(a * 0x1_0000)
    ensures |Base64Encode([a, b])| == 3 && BitsOf(Base64Encode([a, b]) + "A") == Some(a * 0x1_0000 + b * 0x100)
  {
    BitsOfGroup(a, 0, 0);
    BitsOfGroup(a, b, 0);
    assert Base64Encode([a]) + "AA" == [SextetChar(a / 4), SextetChar(a % 4 * 16), 'A', 'A'];
    assert Base64Encode([a, b]) + "A" ==
      [SextetChar(a / 4), SextetChar(a % 4 * 16 + b / 16), SextetChar(b % 16 * 4), 'A'];
  }

  lemma BitsOfGroup(a: nat, b: nat, c: nat)
    requires a < 256 && b < 256 && c < 256
    ensures BitsOf([SextetChar(a / 4), SextetChar(a % 4 * 16 + b / 16), SextetChar(b % 16 * 4 + c / 64),
                    SextetChar(c % 64)]) == Some(a * 0x1_0000 + b * 0x100 + c)
  {
    var v := [a / 4, a % 4 * 16 + b / 16, b % 16 * 4 + c / 64, c % 64];
    assert v == v + [];
    CharsOfGroup(v[0], v[1], v[2], v[3], []);
    CharsRoundTrip(v);
    assert Chars(v) == [SextetChar(v[0]), SextetChar(v[1]), SextetChar(v[2]), SextetChar(v[3])];
  }

  // ---------------------------------------------------------------- UTF-8

  function EncodeRune(c: char): Bytes {
    var v := c as nat;
    if v < 0x80 then [v]
    else if v < 0x800 then [0xC0 + v / 0x40, 0x80 + v % 0x40]
    else if v < 0x1_0000 then [0xE0 + v / 0x1000, 0x80 + v / 0x40 % 0x40, 0x80 + v % 0x40]
    else [0xF0 + v / 0x4_0000, 0x80 + v / 0x1000 % 0x40, 0x80 + v / 0x40 % 0x40, 0x80 + v % 0x40]
  }

  predicate IsContinuation(b: nat) {
    0x80 <= b < 0xC0
  }

  predicate IsScalar(v: int) {
    0 <= v < 0xD800 || 0xE000 <= v < 0x11_0000
  }

  const REPLACEMENT: char := 0xFFFD as char

  /** The first rune of a non-empty byte string and its width; one byte of
      anything ill-formed reads as the replacement character. */
  function DecodeRune(b: Bytes): (r: (char, nat))
    requires b != []
    ensures 1 <= r.1 <= |b|
  {
    if b[0] < 0x80 then (b[0] as char, 1)
    else if 0xC2 <= b[0] < 0xE0 && |b| >= 2 && IsContinuation(b[1]) then
      (((b[0] - 0xC0) * 0x40 + (b[1] - 0x80)) as char, 2)
    else if 0xE0 <= b[0] < 0xF0 && |b| >= 3 && IsContinuation(b[1]) && IsContinuation(b[2]) then
      var v := (b[0] - 0xE0) * 0x1000 + (b[1] - 0x80) * 0x40 + (b[2] - 0x80);
      if 0x800 <= v && IsScalar(v) then (v as char, 3) else (REPLACEMENT, 1)
    else if 0xF0 <= b[0] < 0xF5 && |b| >= 4 && IsContinuation(b[1]) && IsContinuation(b[2]) && IsContinuation(b[3]) then
      var v := (b[0] - 0xF0) * 0x4_0000 + (b[1] - 0x80) * 0x1000 + (b[2] - 0x80) * 0x40 + (b[3] - 0x80);
      if 0x1_0000 <= v && IsScalar(v) then (v as char, 4) else (REPLACEMENT, 1)
    else (REPLACEMENT, 1)
  }

  lemma TwoBytes(c: char, b: Bytes)
    requires 0x80 <= c as nat < 0x800
    requires |b| >= 2 && b[0] == 0xC0 + c as nat / 0x40 && b[1] == 0x80 + c as nat % 0x40
    ensures DecodeRune(b) == (c, 2)
  {
    var v := c as nat;
    assert v / 0x40 * 0x40 + v % 0x40 == v;
  }

  lemma ThreeBytes(c: char, b: Bytes)
    requires 0x800 <= c as nat < 0x1_0000
    requires |b| >= 3 && b[0] == 0xE0 + c as nat / 0x1000
    requires b[1] == 0x80 + c as nat / 0x40 % 0x40 && b[2] == 0x80 + c as nat % 0x40
    ensures DecodeRune(b) == (c, 3)
  {
    var v := c as nat;
    var high := v / 0x40;
    assert v == high * 0x40 + v % 0x40;
    assert v / 0x1000 == high / 0x40;
    assert high == high / 0x40 * 0x40 + high % 0x40;
    assert (b[0] - 0xE0) * 0x1000 + (b[1] - 0x80) * 0x40 + (b[2] - 0x80) == v;
  }

  lemma FourBytes(c: char, b: Bytes)
    requires 0x1_0000 <= c as nat
    requires |b| >= 4 && b[0] == 0xF0 + c as nat / 0x4_0000 && b[1] == 0x80 + c as nat / 0x1000 % 0x40
    requires b[2] == 0x80 + c as nat / 0x40 % 0x40 && b[3] == 0x80 + c as nat % 0x40
    ensures DecodeRune(b) == (c, 4)
  {
    var v := c as nat;
    var middle := v / 0x40;
    var high := middle / 0x40;
    assert v < 0x11_0000;
    assert v == middle * 0x40 + v % 0x40;
    assert v / 0x1000 == high && v / 0x4_0000 == high / 0x40;
    assert middle == high * 0x40 + middle % 0x40;
    assert high == high / 0x40 * 0x40 + high % 0x40;
    assert (b[0] - 0xF0) * 0x4_0000 + (b[1] - 0x80) * 0x1000 + (b[2] - 0x80) * 0x40 + (b[3] - 0x80) == v;
  }

  lemma RuneRoundTrip(c: char, rest: Bytes)
    ensures EncodeRune(c) + rest != []
    ensures DecodeRune(EncodeRune(c) + rest) == (c, |EncodeRune(c)|)
    ensures IsBytes(EncodeRune(c))
    ensures c as nat < 0x80 ==> EncodeRune(c)[0] == c as nat
    ensures c as nat >= 0x80 ==> EncodeRune(c)[0] >= 0x80
  {
    var v := c as nat;
    var b := EncodeRune(c) + rest;
    if v < 0x80 {
    } else if v < 0x800 {
      TwoBytes(c, b);
    } else if v < 0x1_0000 {
      ThreeBytes(c, b);
    } else {
      FourBytes(c, b);
    }
  }

  // ---------------------------------------------------------------- JSON strings, section 7 of RFC 8259

  function Ascii(text: string): Bytes
    requires forall i :: 0 <= i < |text| ==> text[i] < 0x80 as char
  {
    seq(|text|, i requires 0 <= i < |text| => text[i] as nat)
  }

  function HexDigit(v: nat): nat
    requires v < 16
  {
    if v < 10 then '0' as nat + v else 'a' as nat + (v - 10)
  }

  /** `\u` and four hexadecimal digits. */
  function UnicodeEscape(v: nat): Bytes
    requires v < 0x1_0000
  {
    ['\\' as nat, 'u' as nat,
     HexDigit(v / 0x1000), HexDigit(v / 0x100 % 16), HexDigit(v / 0x10 % 16), HexDigit(v % 16)]
  }

  /** How the marshaller writes one character of a string. */
  function EscapeRune(c: char): Bytes {
    if c == '\"' || c == '\\' then ['\\' as nat, c as nat]
    else if c as nat == 8 then ['\\' as nat, 'b' as nat]
    else if c as nat == 12 then ['\\' as nat, 'f' as nat]
    else if c == '\n' then ['\\' as nat, 'n' as nat]
    else if c == '\r' then ['\\' as nat, 'r' as nat]
    else if c == '\t' then ['\\' as nat, 't' as nat]
    else if c as nat < 0x20 || c == '<' || c == '>' || c == '&' || c as nat == 0x2028 || c as nat == 0x2029 then
      UnicodeEscape(c as nat)
    else EncodeRune(c)
  }

  function EscapeString(text: string): Bytes {
    if text == "" then [] else EscapeRune(text[0]) + EscapeString(text[1..])
  }

  function HexValue(b: nat): Option<nat> {
    if '0' as nat <= b <= '9' as nat then Some(b - '0' as nat)
    else if 'a' as nat <= b <= 'f' as nat then Some(b - 'a' as nat + 10)
    else if 'A' as nat <= b <= 'F' as nat then Some(b - 'A' as nat + 10)
    else None
  }

  /** The number written by four hexadecimal digits. */
  function HexNumber(b: Bytes): Option<nat>
    requires |b| == 4
  {
    var d0, d1, d2, d3 := HexValue(b[0]), HexValue(b[1]), HexValue(b[2]), HexValue(b[3]);
    if d0.None? || d1.None? || d2.None? || d3.None? then None
    else Some(d0.value * 0x1000 + d1.value * 0x100 + d2.value * 0x10 + d3.value)
  }

  function SimpleEscape(b: nat): Option<char> {
    if b == '\"' as nat || b == '\\' as nat || b == '/' as nat then Some(b as char)
    else if b == 'b' as nat then Some(8 as char)
    else if b == 'f' as nat then Some(12 as char)
    else if b == 'n' as nat then Some('\n')
    else if b == 'r' as nat then Some('\r')
    else if b == 't' as nat then Some('\t')
    else None
  }

  predicate IsHighSurrogate(v: nat) { 0xD800 <= v < 0xDC00 }

  predicate IsLowSurrogate(v: nat) { 0xDC00 <= v < 0xE000 }

  /** The code unit of a `\u` escape at the head of `b`. */
  function EscapedUnit(b: Bytes): Option<nat> {
    if |b| >= 6 && b[0] == '\\' as nat && b[1] == 'u' as nat then HexNumber(b[2..6]) else None
  }

  /** Reads string content up to the closing quote: the text, and what follows
      the quote. Control characters, unknown escapes and a missing quote are
      errors; surrogate escapes that do not pair read as the replacement character. */
  function Unescape(b: Bytes): Option<(string, Bytes)>
    decreases |b|
  {
    if b == [] || b[0] < 0x20 then None
    else if b[0] == '\"' as nat then Some(("", b[1..]))
    else if b[0] == '\\' as nat then
      if |b| < 2 then None
      else if b[1] == 'u' as nat then
        var unit := EscapedUnit(b);
        if unit.None? then None
        else if IsHighSurrogate(unit.value) then
          var low := EscapedUnit(b[6..]);
          if low.Some? && IsLowSurrogate(low.value) then
            Prepend((0x1_0000 + (unit.value - 0xD800) * 0x400 + (low.value - 0xDC00)) as char, Unescape(b[12..]))
          else Prepend(REPLACEMENT, Unescape(b[6..]))
        else if IsScalar(unit.value) then Prepend(unit.value as char, Unescape(b[6..]))
        else Prepend(REPLACEMENT, Unescape(b[6..]))
      else
        var c := SimpleEscape(b[1]);
        if c.None? then None else Prepend(c.value, Unescape(b[2..]))
    else
      var (c, width) := DecodeRune(b);
      Prepend(c, Unescape(b[width..]))
  }

  function Prepend(c: char, rest: Option<(string, Bytes)>): Option<(string, Bytes)> {
    if rest.None? then None else Some(([c] + rest.value.0, rest.value.1))
  }

  lemma HexDigitRoundTrip(v: nat)
    requires v < 16
    ensures HexValue(HexDigit(v)) == Some(v) && HexDigit(v) < 128
  {
  }

  lemma HexRoundTrip(v: nat)
    requires v < 0x1_0000
    ensures HexNumber(UnicodeEscape(v)[2..]) == Some(v)
    ensures IsBytes(UnicodeEscape(v))
  {
    var d0, d1, d2, d3 := v / 0x1000, v / 0x100 % 16, v / 0x10 % 16, v % 16;
    HexDigitRoundTrip(d0);
    HexDigitRoundTrip(d1);
    HexDigitRoundTrip(d2);
    HexDigitRoundTrip(d3);
    var low := v / 16;
    var middle := low / 16;
    assert v == low * 16 + d3;
    assert v / 0x100 == middle && v / 0x1000 == middle / 16;
    assert low == middle * 16 + d2 && middle == d0 * 16 + d1;
  }

  lemma UnicodeEscapeRoundTrip(c: char, rest: Bytes)
    requires c as nat < 0x1_0000
    ensures Unescape(UnicodeEscape(c as nat) + rest) == Prepend(c, Unescape(rest))
  {
    var escape := UnicodeEscape(c as nat);
    var b := escape + rest;
    HexRoundTrip(c as nat);
    assert b[2..6] == escape[2..];
    assert b[6..] == rest;
    assert EscapedUnit(b) == Some(c as nat);
    assert IsScalar(c as nat);
  }

  lemma SimpleEscapeRoundTrip(c: char, letter: nat, rest: Bytes)
    requires letter != 'u' as nat && SimpleEscape(letter) == Some(c)
    ensures Unescape(['\\' as nat, letter] + rest) == Prepend(c, Unescape(rest))
  {
    assert (['\\' as nat, letter] + rest)[2..] == rest;
  }

  lemma PlainRoundTrip(c: char, rest: Bytes)
    requires c as nat >= 0x20 && c != '\"' && c != '\\'
    ensures Unescape(EncodeRune(c) + rest) == Prepend(c, Unescape(rest))
  {
    RuneRoundTrip(c, rest);
    assert (EncodeRune(c) + rest)[|EncodeRune(c)|..] == rest;
    assert (EncodeRune(c) + rest)[0] == EncodeRune(c)[0];
  }

  /** One escaped character reads back as itself. */
  lemma EscapeRoundTrip(c: char, rest: Bytes)
    ensures Unescape(EscapeRune(c) + rest) == Prepend(c, Unescape(rest))
    ensures IsBytes(EscapeRune(c))
  {
    if EscapeRune(c) == EncodeRune(c) && c as nat >= 0x20 && c != '\"' && c != '\\' {
      RuneRoundTrip(c, rest);
      PlainRoundTrip(c, rest);
    } else if |EscapeRune(c)| == 2 {
      SimpleEscapeRoundTrip(c, EscapeRune(c)[1], rest);
    } else {
      HexRoundTrip(c as nat);
      UnicodeEscapeRoundTrip(c, rest);
    }
  }

  lemma UnescapeOne(c: char, more: Bytes, content: string, rest: Bytes)
    requires Unescape(more) == Some((content, rest))
    ensures Unescape(EscapeRune(c) + more) == Some(([c] + content, rest))
  {
    EscapeRoundTrip(c, more);
  }

  lemma UnescapeQuote(b: Bytes)
    requires b != [] && b[0] == '\"' as nat
    ensures Unescape(b) == Some(("", b[1..]))
  {
  }

  lemma EscapeStringFirst(text: string, tail: Bytes)
    requires text != ""
    ensures EscapeString(text) + tail == EscapeRune(text[0]) + (EscapeString(text[1..]) + tail)
  {
  }

  lemma {:induction false} StringRoundTrip(text: string, tail: Bytes)
    requires tail != [] && tail[0] == '\"' as nat
    ensures Unescape(EscapeString(text) + tail) == Some((text, tail[1..]))
  {
    if text == "" {
      assert EscapeString(text) + tail == tail;
      UnescapeQuote(tail);
    } else {
      StringRoundTrip(text[1..], tail);
      UnescapeOne(text[0], EscapeString(text[1..]) + tail, text[1..], tail[1..]);
      EscapeStringFirst(text, tail);
      assert [text[0]] + text[1..] == text;
    }
  }

  lemma {:induction false} EscapedIsBytes(text: string)
    ensures IsBytes(EscapeString(text))
  {
    if text != "" {
      EscapeRoundTrip(text[0], []);
      EscapedIsBytes(text[1..]);
    }
  }

  // ---------------------------------------------------------------- the token

  const PREFIX := "{\"ziti_identity_id\":\""

  function Marshal(zitiIdentityId: string): Bytes {
    Ascii(PREFIX) + EscapeString(zitiIdentityId) + ['\"' as nat] + ['}' as nat]
  }

  function Unmarshal(b: Bytes): Option<string> {
    if |b| < |PREFIX| || b[..|PREFIX|] != Ascii(PREFIX) then None
    else
      var content := Unescape(b[|PREFIX|..]);
      if content.None? || content.value.1 != ['}' as nat] then None else Some(content.value.0)
  }

  function EncodePageToken(zitiIdentityId: string): string {
    Base64Encode(Marshal(zitiIdentityId))
  }

  function DecodePageToken(token: string): (id: Result<string>)
    ensures id.Ok? ==> id.value != ""
  {
    if token == "" then Err("empty token")
    else
      var data := Base64Decode(token);
      if data.None? then Err("decode token")
      else
        var id := Unmarshal(data.value);
        if id.None? then Err("unmarshal token")
        else if id.value == "" then Err("token missing ziti identity id")
        else Ok(id.value)
  }

  /** A token carries exactly the id it was made from; the empty id is the only
      one that does not come back. */
  lemma PageTokenRoundTrip(id: string)
    ensures DecodePageToken(EncodePageToken(id)) == if id == "" then Err("token missing ziti identity id") else Ok(id)
  {
    var b := Marshal(id);
    MarshalRoundTrip(id);
    MarshalIsBytes(id);
    Base64RoundTrip(b);
    EncodingNotEmpty(b);
  }

  /** The object encoded for the id "a". */
  lemma MarshalExample()
    ensures Marshal("a") == Ascii("{\"ziti_identity_id\":\"a\"}")
  {
    assert "a"[1..] == "";
    assert EscapeString("a") == EscapeRune('a') + EscapeString("");
  }

  lemma EncodingNotEmpty(b: Bytes)
    requires b != []
    ensures Base64Encode(b) != ""
  {
  }

  lemma MarshalRoundTrip(id: string)
    ensures Unmarshal(Marshal(id)) == Some(id)
  {
    var tail := ['\"' as nat, '}' as nat];
    var head := Ascii(PREFIX);
    SplitConcat(head, EscapeString(id) + tail);
    assert Marshal(id) == head + (EscapeString(id) + tail);
    StringRoundTrip(id, tail);
    assert tail[1..] == ['}' as nat];
  }

  lemma SplitConcat(a: Bytes, b: Bytes)
    ensures (a + b)[..|a|] == a && (a + b)[|a|..] == b
  {
  }

  lemma MarshalIsBytes(id: string)
    ensures IsBytes(Marshal(id)) && Marshal(id) != []
  {
    EscapedIsBytes(id);
  }

  /** No two ids share a token. */
  lemma PageTokensAreDistinct(a: string, b: string)
    requires EncodePageToken(a) == EncodePageToken(b)
    ensures a == b
  {
    PageTokenRoundTrip(a);
    PageTokenRoundTrip(b);
  }
}
