/** `URLEncoder.encode(value, "UTF-8")`: the application/x-www-form-urlencoded
    byte serialiser of section 17.13.4.1 of HTML 4.01 (section 5.2 of the
    WHATWG URL Standard). The value is written as UTF-8 bytes; the bytes of
    `a-z A-Z 0-9 . - * _` stay as they are, a space becomes `+`, and every
    other byte becomes `%` and two upper-case hexadecimal digits.

    The decoder beside it is what the gateway does with a value it receives;
    it is the partner the round-trip lemmas are stated against. */
module FormEncoding {
  import opened Wrappers

  type byte = x: int | 0 <= x < 256

  /** The characters the form encoding keeps as they are. */
  predicate IsUnreserved(c: char) {
    || ('a' <= c <= 'z') || ('A' <= c <= 'Z') || ('0' <= c <= '9')
    || c == '.' || c == '-' || c == '*' || c == '_'
  }

  predicate IsAscii(s: string) {
    forall c <- s :: c as int < 0x80
  }

  /** What the encoder can produce: kept characters, `+` and `%`. In particular
      never `&`, `=` or a space, which delimit a parameter string. */
  predicate IsFormSafe(s: string) {
    forall c <- s :: IsUnreserved(c) || c == '+' || c == '%'
  }

  // ---------------------------------------------------------------- UTF-8

  predicate IsContinuation(b: byte) {
    0x80 <= b < 0xC0
  }

  /** The UTF-8 bytes of one character (a Unicode scalar value). */
  function Utf8Char(c: char): (bs: seq<byte>)
    ensures 1 <= |bs| <= 4
    ensures (|bs| == 1) <==> c as int < 0x80
  {
    var cp := c as int;
    if cp < 0x80 then [cp]
    else if cp < 0x800 then [0xC0 + cp / 64, 0x80 + cp % 64]
    else if cp < 0x1_0000 then [0xE0 + cp / 4096, 0x80 + (cp / 64) % 64, 0x80 + cp % 64]
    else [0xF0 + cp / 262144, 0x80 + (cp / 4096) % 64, 0x80 + (cp / 64) % 64, 0x80 + cp % 64]
  }

  /** `s.getBytes("UTF-8")`. */
  function Utf8Encode(s: string): seq<byte> {
    if s == [] then [] else Utf8Char(s[0]) + Utf8Encode(s[1..])
  }

  /** The first character of a UTF-8 byte sequence and the number of bytes it
      takes, or `None` when the sequence does not start with a well-formed,
      shortest-form encoding of a scalar value. */
  function Utf8DecodeFirst(bs: seq<byte>): (r: Option<(char, nat)>)
    requires |bs| > 0
    ensures r.Some? ==> 1 <= r.value.1 <= |bs|
  {
    var b0: int := bs[0];
    if b0 < 0x80 then Some((b0 as char, 1))
    else if 0xC2 <= b0 < 0xE0 && |bs| >= 2 && IsContinuation(bs[1]) then
      Some((Utf8Value2(b0, bs[1]) as char, 2))
    else if 0xE0 <= b0 < 0xF0 && |bs| >= 3 && IsContinuation(bs[1]) && IsContinuation(bs[2]) then
      var cp := Utf8Value3(b0, bs[1], bs[2]);
      if 0x800 <= cp < 0xD800 || 0xE000 <= cp then Some((cp as char, 3)) else None
    else if 0xF0 <= b0 < 0xF5 && |bs| >= 4
      && IsContinuation(bs[1]) && IsContinuation(bs[2]) && IsContinuation(bs[3]) then
      var cp := Utf8Value4(b0, bs[1], bs[2], bs[3]);
      if 0x1_0000 <= cp < 0x11_0000 then Some((cp as char, 4)) else None
    else None
  }

  /** The code point a two-, three- or four-byte sequence carries: the payload
      bits of the lead byte followed by six bits per continuation byte. */
  function Utf8Value2(b0: int, b1: int): (cp: int)
    requires 0xC2 <= b0 < 0xE0 && 0x80 <= b1 < 0xC0
    ensures 0x80 <= cp < 0x800
  {
    (b0 - 0xC0) * 64 + (b1 - 0x80)
  }

  function Utf8Value3(b0: int, b1: int, b2: int): (cp: int)
    requires 0xE0 <= b0 < 0xF0 && 0x80 <= b1 < 0xC0 && 0x80 <= b2 < 0xC0
    ensures 0 <= cp < 0x1_0000
  {
    (b0 - 0xE0) * 4096 + (b1 - 0x80) * 64 + (b2 - 0x80)
  }

  function Utf8Value4(b0: int, b1: int, b2: int, b3: int): (cp: int)
    requires 0xF0 <= b0 < 0xF5 && 0x80 <= b1 < 0xC0 && 0x80 <= b2 < 0xC0 && 0x80 <= b3 < 0xC0
    ensures 0 <= cp
  {
    (b0 - 0xF0) * 262144 + (b1 - 0x80) * 4096 + (b2 - 0x80) * 64 + (b3 - 0x80)
  }

  /** `new String(bs, "UTF-8")` for well-formed input; `None` otherwise. */
  function Utf8Decode(bs: seq<byte>): Option<string>
    decreases |bs|
  {
    if bs == [] then Some([])
    else
      match Utf8DecodeFirst(bs)
      case None => None
      case Some((c, n)) =>
        match Utf8Decode(bs[n..])
        case None => None
        case Some(rest) => Some([c] + rest)
  }

  /** Decoding the bytes of one character, followed by anything, gives back
      that character and consumes exactly its bytes. */
  lemma Utf8CharDecodes(c: char, rest: seq<byte>)
    ensures Utf8DecodeFirst(Utf8Char(c) + rest) == Some((c, |Utf8Char(c)|))
  {
    var cp := c as int;
    var bs := Utf8Char(c) + rest;
    if cp < 0x80 {
    } else if cp < 0x800 {
      Utf8Split2(cp);
      assert bs[0] == 0xC0 + cp / 64 && bs[1] == 0x80 + cp % 64;
    } else if cp < 0x1_0000 {
      Utf8Split3(cp);
      assert bs[0] == 0xE0 + cp / 4096 && bs[1] == 0x80 + (cp / 64) % 64 && bs[2] == 0x80 + cp % 64;
    } else {
      Utf8Split4(cp);
      assert bs[0] == 0xF0 + cp / 262144 && bs[1] == 0x80 + (cp / 4096) % 64;
      assert bs[2] == 0x80 + (cp / 64) % 64 && bs[3] == 0x80 + cp % 64;
    }
  }

  lemma Utf8Split2(cp: int)
    requires 0x80 <= cp < 0x800
    ensures 0xC2 <= 0xC0 + cp / 64 < 0xE0
    ensures Utf8Value2(0xC0 + cp / 64, 0x80 + cp % 64) == cp
  {
  }

  lemma Utf8Split3(cp: int)
    requires 0x800 <= cp < 0x1_0000
    ensures Utf8Value3(0xE0 + cp / 4096, 0x80 + (cp / 64) % 64, 0x80 + cp % 64) == cp
  {
    var q := cp / 64;
    assert cp == q * 64 + cp % 64;
    assert q == (q / 64) * 64 + q % 64;
    assert q / 64 == cp / 4096;
  }

  lemma Utf8Split4(cp: int)
    requires 0x1_0000 <= cp < 0x11_0000
    ensures 0xF0 + cp / 262144 < 0xF5
    ensures Utf8Value4(0xF0 + cp / 262144, 0x80 + (cp / 4096) % 64, 0x80 + (cp / 64) % 64, 0x80 + cp % 64) == cp
  {
    var q := cp / 64;
    var q2 := q / 64;
    assert cp == q * 64 + cp % 64;
    assert q == q2 * 64 + q % 64;
    assert q2 == (q2 / 64) * 64 + q2 % 64;
    assert q2 == cp / 4096;
    assert q2 / 64 == cp / 262144;
  }

  /** UTF-8 decoding inverts UTF-8 encoding on every string. */
  lemma {:induction false} Utf8RoundTrip(s: string)
    ensures Utf8Decode(Utf8Encode(s)) == Some(s)
  {
    if s != [] {
      var bs := Utf8Encode(s);
      var head := Utf8Char(s[0]);
      Utf8CharDecodes(s[0], Utf8Encode(s[1..]));
      assert bs[|head|..] == Utf8Encode(s[1..]);
      Utf8RoundTrip(s[1..]);
      assert [s[0]] + s[1..] == s;
    }
  }

  /** An ASCII string is its own UTF-8 encoding, one byte per character. */
  lemma {:induction false} AsciiUtf8Length(s: string)
    requires IsAscii(s)
    ensures |Utf8Encode(s)| == |s|
  {
    if s != [] {
      assert s[0] in s;
      assert forall c <- s[1..] :: c in s;
      AsciiUtf8Length(s[1..]);
    }
  }

  // --------------------------------------------------- form encoding proper

  const HexDigits: string := "0123456789ABCDEF"

  function HexValue(c: char): Option<nat> {
    if '0' <= c <= '9' then Some(c as int - '0' as int)
    else if 'A' <= c <= 'F' then Some(c as int - 'A' as int + 10)
    else if 'a' <= c <= 'f' then Some(c as int - 'a' as int + 10)
    else None
  }

  /** The form encoding of one byte. */
  function EncodeByte(b: byte): string {
    if b == 0x20 then "+"
    else if IsUnreserved(b as char) then [b as char]
    else ['%', HexDigits[b / 16], HexDigits[b % 16]]
  }

  function EncodeBytes(bs: seq<byte>): (s: string)
    ensures IsFormSafe(s)
  {
    if bs == [] then [] else EncodeByte(bs[0]) + EncodeBytes(bs[1..])
  }

  /** `URLEncoder.encode(s, "UTF-8")`. */
  function FormEncode(s: string): (r: string)
    ensures IsFormSafe(r)
  {
    EncodeBytes(Utf8Encode(s))
  }

  function Prepend(b: byte, rest: Option<seq<byte>>): Option<seq<byte>> {
    match rest
    case None => None
    case Some(bs) => Some([b] + bs)
  }

  /** The bytes a form-encoded value stands for: `+` is a space, `%HH` the byte
      HH (either case), any other ASCII character itself. */
  function DecodeBytes(t: string): Option<seq<byte>> {
    if t == [] then Some([])
    else if t[0] == '+' then Prepend(0x20, DecodeBytes(t[1..]))
    else if t[0] == '%' then
      if |t| >= 3 && HexValue(t[1]).Some? && HexValue(t[2]).Some? then
        Prepend(HexValue(t[1]).value * 16 + HexValue(t[2]).value, DecodeBytes(t[3..]))
      else None
    else if t[0] as int < 0x80 then Prepend(t[0] as int, DecodeBytes(t[1..]))
    else None
  }

  /** `URLDecoder.decode(t, "UTF-8")`, as the gateway reads a parameter value. */
  function FormDecode(t: string): Option<string> {
    match DecodeBytes(t)
    case None => None
    case Some(bs) => Utf8Decode(bs)
  }

  lemma EncodeByteDecodes(b: byte, rest: string)
    ensures DecodeBytes(EncodeByte(b) + rest) == Prepend(b, DecodeBytes(rest))
  {
    var t := EncodeByte(b) + rest;
    if b == 0x20 {
      assert t[1..] == rest;
    } else if IsUnreserved(b as char) {
      assert t[1..] == rest;
    } else {
      assert t[1] == HexDigits[b / 16] && t[2] == HexDigits[b % 16];
      assert HexValue(HexDigits[b / 16]) == Some(b / 16);
      assert HexValue(HexDigits[b % 16]) == Some(b % 16);
      assert t[3..] == rest;
    }
  }

  lemma {:induction false} BytesRoundTrip(bs: seq<byte>)
    ensures DecodeBytes(EncodeBytes(bs)) == Some(bs)
  {
    if bs != [] {
      EncodeByteDecodes(bs[0], EncodeBytes(bs[1..]));
      BytesRoundTrip(bs[1..]);
      assert [bs[0]] + bs[1..] == bs;
    }
  }

  /** Every value, whatever characters it holds (`&`, `=`, spaces, characters
      outside ASCII), reaches the gateway unchanged. */
  lemma FormRoundTrip(s: string)
    ensures FormDecode(FormEncode(s)) == Some(s)
  {
    BytesRoundTrip(Utf8Encode(s));
    Utf8RoundTrip(s);
  }

  /** What the encoder produces is plain ASCII. */
  lemma FormSafeIsAscii(s: string)
    requires IsFormSafe(s)
    ensures IsAscii(s)
  {
  }
}
