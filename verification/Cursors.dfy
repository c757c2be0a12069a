/** List cursors of src/bilinc/cloud/runtime.py: unpadded base64url (RFC 4648, sections 3.2, 3.5 and 5) over UTF-8
    (RFC 3629, section 3). */
module Cursors {
  import opened Wrappers

  type Byte = x: int | 0 <= x < 256

  // ---------------------------------------------------------------- UTF-8

  function EncodeChar(ch: char): seq<Byte> {
    var c := ch as int;
    if c < 0x80 then [c]
    else if c < 0x800 then [0xC0 + c / 64, 0x80 + c % 64]
    else if c < 0x1_0000 then [0xE0 + c / 4096, 0x80 + c / 64 % 64, 0x80 + c % 64]
    else [0xF0 + c / 0x4_0000, 0x80 + c / 4096 % 64, 0x80 + c / 64 % 64, 0x80 + c % 64]
  }

  function EncodeUtf8(s: string): seq<Byte> {
    if s == "" then [] else EncodeChar(s[0]) + EncodeUtf8(s[1..])
  }

  predicate IsTail(b: Byte) {
    0x80 <= b < 0xC0
  }

  predicate IsScalar(v: int) {
    0 <= v < 0xD800 || 0xE000 <= v < 0x11_0000
  }

  /** The first character of well-formed UTF-8 and its width: no overlong form, no surrogate, nothing past U+10FFFF. */
  function DecodeChar(b: seq<Byte>): (r: Option<(char, nat)>)
    requires b != []
    ensures r.Some? ==> 0 < r.value.1 <= |b|
  {
    if b[0] < 0x80 then Some((b[0] as char, 1))
    else if 0xC2 <= b[0] < 0xE0 && |b| >= 2 && IsTail(b[1]) then
      var v: int := (b[0] as int - 0xC0) * 64 + (b[1] as int - 0x80);
      Some((v as char, 2))
    else if 0xE0 <= b[0] < 0xF0 && |b| >= 3 && IsTail(b[1]) && IsTail(b[2]) then
      var v := (b[0] as int - 0xE0) * 4096 + (b[1] as int - 0x80) * 64 + (b[2] as int - 0x80);
      if v >= 0x800 && IsScalar(v) then Some((v as char, 3)) else None
    else if 0xF0 <= b[0] < 0xF5 && |b| >= 4 && IsTail(b[1]) && IsTail(b[2]) && IsTail(b[3]) then
      var v := (b[0] as int - 0xF0) * 0x4_0000 + (b[1] as int - 0x80) * 4096 + (b[2] as int - 0x80) * 64 + (b[3] as int - 0x80);
      if v >= 0x1_0000 && IsScalar(v) then Some((v as char, 4)) else None
    else None
  }

  function DecodeUtf8(b: seq<Byte>): Option<string> {
    if b == [] then Some("") else
      match DecodeChar(b)
      case None => None
      case Some((c, width)) =>
        match DecodeUtf8(b[width..])
        case None => None
        case Some(rest) => Some([c] + rest)
  }

  lemma CharRoundTrip(c: char, rest: seq<Byte>)
    ensures DecodeChar(EncodeChar(c) + rest) == Some((c, |EncodeChar(c)|))
  {
    var v := c as int;
    if v < 0x800 {
      assert v == v / 64 * 64 + v % 64;
    } else if v < 0x1_0000 {
      ThreeBytes(c, rest);
    } else {
      FourBytes(c, rest);
    }
  }

  lemma ThreeBytes(c: char, rest: seq<Byte>)
    requires 0x800 <= c as int < 0x1_0000
    ensures DecodeChar(EncodeChar(c) + rest) == Some((c, 3))
  {
    var v := c as int;
    assert v == v / 4096 * 4096 + v / 64 % 64 * 64 + v % 64;
  }

  lemma FourBytes(c: char, rest: seq<Byte>)
    requires c as int >= 0x1_0000
    ensures DecodeChar(EncodeChar(c) + rest) == Some((c, 4))
  {
    var v := c as int;
    FourParts(v);
    FourTails(v / 0x4_0000, v / 4096 % 64, v / 64 % 64, v % 64, v, c, rest);
  }

  lemma FourParts(v: int)
    requires 0 <= v
    ensures v == v / 0x4_0000 * 0x4_0000 + v / 4096 % 64 * 4096 + v / 64 % 64 * 64 + v % 64
  {
    assert v / 64 / 64 == v / 4096;
    assert v / 4096 / 64 == v / 0x4_0000;
  }

  lemma FourTails(x: int, y: int, z: int, w: int, v: int, c: char, rest: seq<Byte>)
    requires c as int == v >= 0x1_0000 && v == x * 0x4_0000 + y * 4096 + z * 64 + w
    requires 0 <= y < 64 && 0 <= z < 64 && 0 <= w < 64
    ensures 0 <= x < 5 && DecodeChar([0xF0 + x, 0x80 + y, 0x80 + z, 0x80 + w] + rest) == Some((c, 4))
  {
    var b: seq<Byte> := [0xF0 + x, 0x80 + y, 0x80 + z, 0x80 + w] + rest;
    assert b[0] == 0xF0 + x && b[1] == 0x80 + y && b[2] == 0x80 + z && b[3] == 0x80 + w;
  }

  /** Decoding gives back every text; in particular encoding is injective. */
  lemma {:induction false} Utf8RoundTrip(s: string)
    ensures DecodeUtf8(EncodeUtf8(s)) == Some(s)
  {
    hide EncodeChar, DecodeChar;
    if s != "" {
      var rest := EncodeUtf8(s[1..]);
      Utf8RoundTrip(s[1..]);
      CharRoundTrip(s[0], rest);
      EncodedCharNotEmpty(s[0]);
      assert (EncodeChar(s[0]) + rest)[|EncodeChar(s[0])|..] == rest;
      assert [s[0]] + s[1..] == s;
    }
  }

  // What is read as a character is its encoding.
  lemma DecodedIsEncoded(b: seq<Byte>, c: char, width: nat)
    requires b != [] && DecodeChar(b) == Some((c, width))
    ensures 0 < width <= |b| && b[..width] == EncodeChar(c)
  {
    if width == 2 {
      LastSix(b[0] - 0xC0, b[1] - 0x80);
    } else if width == 3 {
      DecodedThree(b[0], b[1], b[2], c);
    } else if width == 4 {
      DecodedFour(b[0], b[1], b[2], b[3], c);
    }
  }

  lemma DecodedThree(x: Byte, y: Byte, z: Byte, c: char)
    requires x >= 0xE0 && IsTail(y) && IsTail(z) && c as int == (x - 0xE0) * 4096 + (y - 0x80) * 64 + (z - 0x80)
    requires 0x800 <= c as int < 0x1_0000
    ensures EncodeChar(c) == [x, y, z]
  {
    LastSix((x - 0xE0) * 64 + (y - 0x80), z - 0x80);
    LastSix(x - 0xE0, y - 0x80);
    assert c as int / 4096 == c as int / 64 / 64;
  }

  lemma DecodedFour(x: Byte, y: Byte, z: Byte, w: Byte, c: char)
    requires x >= 0xF0 && IsTail(y) && IsTail(z) && IsTail(w)
    requires c as int == (x - 0xF0) * 0x4_0000 + (y - 0x80) * 4096 + (z - 0x80) * 64 + (w - 0x80) >= 0x1_0000
    ensures EncodeChar(c) == [x, y, z, w]
  {
    LastSix(((x - 0xF0) * 64 + (y - 0x80)) * 64 + (z - 0x80), w - 0x80);
    LastSix((x - 0xF0) * 64 + (y - 0x80), z - 0x80);
    LastSix(x - 0xF0, y - 0x80);
    assert c as int / 4096 == c as int / 64 / 64;
    assert c as int / 0x4_0000 == c as int / 64 / 64 / 64;
  }

  /** Decoding accepts exactly the encodings: no overlong form, surrogate, stray or missing tail byte. */
  lemma {:induction false} Utf8AcceptsExactlyEncodings(b: seq<Byte>, s: string)
    ensures DecodeUtf8(b) == Some(s) <==> b == EncodeUtf8(s)
    decreases |b|
  {
    hide EncodeChar, DecodeChar;
    Utf8RoundTrip(s);
    if b != [] && DecodeChar(b).Some? && DecodeUtf8(b) == Some(s) {
      var (c, width) := DecodeChar(b).value;
      DecodedIsEncoded(b, c, width);
      Utf8AcceptsExactlyEncodings(b[width..], s[1..]);
      assert b == b[..width] + b[width..];
    }
  }

  lemma EncodedCharNotEmpty(c: char)
    ensures EncodeChar(c) != []
  {
  }

  lemma LastSix(q: int, r: int)
    requires 0 <= r < 64
    ensures (q * 64 + r) / 64 == q && (q * 64 + r) % 64 == r
  {
  }

  /** The table of RFC 3629, section 3: a character's bits fill its first byte and then six to a byte. */
  lemma CharBytes(c: char, x: int, y: int, z: int, w: int)
    requires 0 <= y < 64 && 0 <= z < 64 && 0 <= w < 64
    ensures c as int < 0x80 ==> EncodeChar(c) == [c as int]
    ensures 0x80 <= c as int < 0x800 && c as int == x * 64 + y ==> EncodeChar(c) == [0xC0 + x, 0x80 + y]
    ensures 0x800 <= c as int < 0x1_0000 && c as int == (x * 64 + y) * 64 + z ==>
      EncodeChar(c) == [0xE0 + x, 0x80 + y, 0x80 + z]
    ensures 0x1_0000 <= c as int && c as int == ((x * 64 + y) * 64 + z) * 64 + w ==>
      EncodeChar(c) == [0xF0 + x, 0x80 + y, 0x80 + z, 0x80 + w]
  {
    var v := c as int;
    LastSix(x, y);
    LastSix(x * 64 + y, z);
    LastSix((x * 64 + y) * 64 + z, w);
    assert v / 4096 == v / 64 / 64;
    assert v / 0x4_0000 == v / 64 / 64 / 64;
  }

  /** A text is encoded character by character. */
  lemma {:induction false} Utf8Concat(a: string, b: string, c: char)
    ensures EncodeUtf8([c]) == EncodeChar(c) && EncodeUtf8(a + b) == EncodeUtf8(a) + EncodeUtf8(b)
  {
    hide EncodeChar;
    assert [c][1..] == "";
    if a == "" {
      assert a + b == b;
    } else {
      assert (a + b)[1..] == a[1..] + b;
      Utf8Concat(a[1..], b, c);
    }
  }

  // ---------------------------------------------------------------- base64url

  type Sextet = x: int | 0 <= x < 64

  function Symbol(s: Sextet): char {
    if s < 26 then (s + 'A' as int) as char
    else if s < 52 then (s - 26 + 'a' as int) as char
    else if s < 62 then (s - 52 + '0' as int) as char
    else if s == 62 then '-' else '_'
  }

  // The sextet a character stands for, if it is in the alphabet.
  function SymbolValue(c: char): (r: Option<Sextet>)
    ensures r.Some? ==> Symbol(r.value) == c
  {
    if 'A' <= c <= 'Z' then Some(c as int - 'A' as int)
    else if 'a' <= c <= 'z' then Some(c as int - 'a' as int + 26)
    else if '0' <= c <= '9' then Some(c as int - '0' as int + 52)
    else if c == '-' then Some(62) else if c == '_' then Some(63) else None
  }

  lemma SymbolRoundTrip(s: Sextet)
    ensures SymbolValue(Symbol(s)) == Some(s) && Symbol(s) != '='
  {
  }

  /** The URL-safe alphabet of RFC 4648, section 5, as ASCII codes: A to Z, a to z, 0 to 9, the hyphen and the underscore. */
  lemma AlphabetIs(s: Sextet, c: char)
    ensures SymbolValue(c) == Some(s) <==>
      c as int == if s < 26 then 65 + s as int else if s < 52 then 97 + (s as int - 26) else if s < 62 then 48 + (s as int - 52)
                  else if s == 62 then 45 else 95
  {
    SymbolRoundTrip(s);
  }

  function Sextets(b: seq<Byte>): seq<Sextet> {
    if b == [] then []
    else if |b| == 1 then [b[0] / 4, b[0] % 4 * 16]
    else if |b| == 2 then [b[0] / 4, b[0] % 4 * 16 + b[1] / 16, b[1] % 16 * 4]
    else Quad(b[0], b[1], b[2]) + Sextets(b[3..])
  }

  function Quad(x: Byte, y: Byte, z: Byte): (quad: seq<Sextet>)
    ensures |quad| == 4
  {
    [x / 4, x % 4 * 16 + y / 16, y % 16 * 4 + z / 64, z % 64]
  }

  function Symbols(s: seq<Sextet>): (text: string)
    ensures |text| == |s|
  {
    seq(|s|, i requires 0 <= i < |s| => Symbol(s[i]))
  }

  function Padding(n: int): string
    requires n >= 0
  {
    seq(n, _ => '=')
  }

  // `base64.urlsafe_b64encode`
  function EncodeBase64(b: seq<Byte>): string {
    Symbols(Sextets(b)) + Padding(-|Sextets(b)| % 4)
  }

  // `rstrip("=")`
  function StripPadding(s: string): string {
    if s != "" && s[|s| - 1] == '=' then StripPadding(s[..|s| - 1]) else s
  }

  /** Sextets are the bits of the bytes, six at a time from the front: a quad is the number its three bytes are, a last pair
      or triple that of its one or two bytes with zero bits behind. */
  lemma SextetsAreTheBits(b: seq<Byte>)
    requires b != []
    ensures |b| == 1 ==> |Sextets(b)| == 2 && Bits(Sextets(b)) == b[0] as int * 16
    ensures |b| == 2 ==> |Sextets(b)| == 3 && Bits(Sextets(b)) == (b[0] as int * 256 + b[1] as int) * 4
    ensures |b| >= 3 ==>
      && |Sextets(b)| >= 4 && Sextets(b)[4..] == Sextets(b[3..])
      && Bits(Sextets(b)[..4]) == (b[0] as int * 256 + b[1] as int) * 256 + b[2] as int
  {
    hide Quad;
    if |b| >= 3 {
      QuadBits(b[0], b[1], b[2]);
      assert Sextets(b)[..4] == Quad(b[0], b[1], b[2]);
    } else if |b| == 2 {
      TripleBits(b[0] as int, b[1] as int);
      BitsOfThree(Sextets(b));
    } else {
      BitsOfTwo(Sextets(b));
    }
  }

  // Sextets read as one number, the first highest.
  function Bits(s: seq<Sextet>): int {
    if s == [] then 0 else Bits(s[..|s| - 1]) * 64 + s[|s| - 1] as int
  }

  lemma BitsOfTwo(s: seq<Sextet>)
    requires |s| == 2
    ensures Bits(s) == s[0] as int * 64 + s[1] as int
  {
    assert s[..1] == [s[0]] && s[..1][..0] == [];
    assert Bits(s[..1][..0]) == 0;
    assert Bits(s[..1]) == s[0] as int;
  }

  lemma BitsOfThree(s: seq<Sextet>)
    requires |s| == 3
    ensures Bits(s) == (s[0] as int * 64 + s[1] as int) * 64 + s[2] as int
  {
    BitsOfTwo(s[..2]);
  }

  lemma TripleBits(x: int, y: int)
    requires 0 <= x < 256 && 0 <= y < 256
    ensures (x / 4 * 64 + (x % 4 * 16 + y / 16)) * 64 + y % 16 * 4 == (x * 256 + y) * 4
  {
  }

  lemma QuadBits(x: Byte, y: Byte, z: Byte)
    ensures Bits(Quad(x, y, z)) == (x as int * 256 + y as int) * 256 + z as int
  {
    var q := Quad(x, y, z);
    BitsOfThree(q[..3]);
    var a, b, c := x as int, y as int, z as int;
    assert a == a / 4 * 4 + a % 4 && b == b / 16 * 16 + b % 16 && c == c / 64 * 64 + c % 64;
  }

  /** The bytes of complete quads, then of a last pair or triple; the bits left over are dropped unread. */
  function Octets(s: seq<Sextet>): seq<Byte> {
    if |s| < 2 then []
    else if |s| == 2 then [First(s[0], s[1])]
    else if |s| == 3 then [First(s[0], s[1]), Second(s[1], s[2])]
    else Triple(s[..4]) + Octets(s[4..])
  }

  function Triple(quad: seq<Sextet>): seq<Byte>
    requires |quad| == 4
  {
    [First(quad[0], quad[1]), Second(quad[1], quad[2]), Third(quad[2], quad[3])]
  }

  function First(a: int, b: int): Byte
    requires 0 <= a < 64 && 0 <= b < 64
  {
    a * 4 + b / 16
  }

  function Second(b: int, c: int): Byte
    requires 0 <= b < 64 && 0 <= c < 64
  {
    b % 16 * 16 + c / 4
  }

  function Third(c: int, d: int): Byte
    requires 0 <= c < 64 && 0 <= d < 64
  {
    c % 4 * 64 + d
  }

  // What the decoder keeps of a text: characters outside the alphabet are skipped.
  function Kept(text: string): seq<Sextet> {
    if text == "" then [] else
      (match SymbolValue(text[0]) case Some(s) => [s] case None => []) + Kept(text[1..])
  }

  /** `base64.urlsafe_b64decode` of the text followed by `pads` padding characters: the kept symbols must fill quads,
      or end in a pair with two pads or a triple with one. */
  function DecodeBase64(text: string, pads: nat): Option<seq<Byte>> {
    var kept := Kept(text);
    if |kept| % 4 == 0 || (|kept| % 4 == 2 && pads >= 2) || (|kept| % 4 == 3 && pads >= 1) then Some(Octets(kept))
    else None
  }

  lemma {:induction false} OctetsRoundTrip(b: seq<Byte>)
    ensures Octets(Sextets(b)) == b && |Sextets(b)| % 4 != 1
  {
    if |b| < 3 {
      ShortRoundTrip(b);
    } else {
      hide Quad, Triple, Octets, Sextets;
      OctetsRoundTrip(b[3..]);
      QuadRoundTrip(b[0], b[1], b[2]);
      SextetsOfLong(b);
      OctetsOfLong(Quad(b[0], b[1], b[2]), Sextets(b[3..]));
      FourMore(|Sextets(b[3..])|);
      assert b == [b[0], b[1], b[2]] + b[3..];
    }
  }

  lemma FourMore(n: nat)
    ensures (4 + n) % 4 == n % 4
  {
  }

  lemma ShortRoundTrip(b: seq<Byte>)
    requires |b| < 3
    ensures Octets(Sextets(b)) == b && |Sextets(b)| != 1 && |Sextets(b)| <= 3
  {
  }

  lemma SextetsOfLong(b: seq<Byte>)
    requires |b| >= 3
    ensures Sextets(b) == Quad(b[0], b[1], b[2]) + Sextets(b[3..])
  {
    hide Quad;
  }

  lemma OctetsOfLong(quad: seq<Sextet>, rest: seq<Sextet>)
    requires |quad| == 4
    ensures Octets(quad + rest) == Triple(quad) + Octets(rest)
  {
    hide Triple;
    assert (quad + rest)[..4] == quad && (quad + rest)[4..] == rest;
  }

  lemma QuadRoundTrip(x: Byte, y: Byte, z: Byte)
    ensures Triple(Quad(x, y, z)) == [x, y, z]
  {
    hide First, Second, Third;
    Bytewise(x, y, z);
  }

  lemma Bytewise(x: int, y: int, z: int)
    requires 0 <= x < 256 && 0 <= y < 256 && 0 <= z < 256
    ensures First(x / 4, x % 4 * 16 + y / 16) == x
    ensures Second(x % 4 * 16 + y / 16, y % 16 * 4 + z / 64) == y
    ensures Third(y % 16 * 4 + z / 64, z % 64) == z
  {
    assert x % 4 * 16 % 16 == 0;
    assert y % 16 * 4 % 4 == 0;
  }

  lemma {:induction false} KeptSymbols(s: seq<Sextet>)
    ensures Kept(Symbols(s)) == s
  {
    if s != [] {
      KeptSymbols(s[1..]);
      SymbolRoundTrip(s[0]);
      assert Symbols(s)[1..] == Symbols(s[1..]);
    }
  }

  lemma {:induction false} StripsAllPadding(s: seq<Sextet>, n: nat)
    ensures StripPadding(Symbols(s) + Padding(n)) == Symbols(s)
  {
    var text := Symbols(s) + Padding(n);
    if n > 0 {
      assert text[..|text| - 1] == Symbols(s) + Padding(n - 1);
      StripsAllPadding(s, n - 1);
    } else {
      assert text == Symbols(s);
      if s != [] {
        SymbolRoundTrip(s[|s| - 1]);
      }
    }
  }

  // ---------------------------------------------------------------- key cursors

  datatype CursorError = InvalidCursor

  function EncodeCursor(key: string): string {
    StripPadding(EncodeBase64(EncodeUtf8(key)))
  }

  // `^[A-Za-z0-9_-]+$`, where `$` also matches before a final newline.
  predicate MatchesPattern(cursor: string) {
    var body := if cursor != "" && cursor[|cursor| - 1] == '\n' then cursor[..|cursor| - 1] else cursor;
    body != "" && forall i :: 0 <= i < |body| ==> SymbolValue(body[i]).Some?
  }

  function DecodeCursor(cursor: string): Result<string, CursorError> {
    if !MatchesPattern(cursor) then Err(InvalidCursor) else
      match DecodeBase64(cursor, -|cursor| % 4)
      case None => Err(InvalidCursor)
      case Some(bytes) =>
        match DecodeUtf8(bytes)
        case None => Err(InvalidCursor)
        case Some(key) => if key == "" || EncodeCursor(key) != cursor then Err(InvalidCursor) else Ok(key)
  }

  lemma EncodedCursorIs(key: string)
    ensures EncodeCursor(key) == Symbols(Sextets(EncodeUtf8(key)))
  {
    hide StripPadding, Symbols, Padding, Sextets, EncodeUtf8;
    StripsAllPadding(Sextets(EncodeUtf8(key)), -|Sextets(EncodeUtf8(key))| % 4);
  }

  lemma SymbolsMatchPattern(s: seq<Sextet>)
    requires s != []
    ensures MatchesPattern(Symbols(s))
  {
    forall i | 0 <= i < |s|
      ensures SymbolValue(Symbols(s)[i]).Some? && Symbols(s)[i] != '\n'
    {
      SymbolRoundTrip(s[i]);
    }
  }

  lemma Base64RoundTrip(b: seq<Byte>)
    ensures DecodeBase64(Symbols(Sextets(b)), -|Sextets(b)| % 4) == Some(b)
  {
    hide Kept, Octets, Sextets, Symbols;
    OctetsRoundTrip(b);
    KeptSymbols(Sextets(b));
  }

  lemma SextetsNotEmpty(b: seq<Byte>)
    requires |b| > 0
    ensures |Sextets(b)| > 0
  {
  }

  lemma EncodedNotEmpty(key: string)
    requires key != ""
    ensures |EncodeUtf8(key)| > 0
  {
    EncodedCharNotEmpty(key[0]);
  }

  lemma CursorRoundTrip(key: string)
    requires key != ""
    ensures DecodeCursor(EncodeCursor(key)) == Ok(key)
  {
    hide EncodeUtf8, DecodeUtf8, Sextets, Symbols, EncodeCursor, MatchesPattern, DecodeBase64;
    var bytes := EncodeUtf8(key);
    EncodedCursorIs(key);
    Base64RoundTrip(bytes);
    Utf8RoundTrip(key);
    EncodedNotEmpty(key);
    SextetsNotEmpty(bytes);
    SymbolsMatchPattern(Sextets(bytes));
  }

  /** A cursor is accepted exactly when it is the encoding of a non-empty key, and then it gives that key. */
  lemma DecodeAcceptsExactlyEncodings(cursor: string, key: string)
    ensures DecodeCursor(cursor) == Ok(key) <==> key != "" && cursor == EncodeCursor(key)
  {
    hide DecodeBase64, DecodeUtf8, EncodeCursor;
    if key != "" && cursor == EncodeCursor(key) {
      CursorRoundTrip(key);
    }
  }

  /** Different keys have different cursors. */
  lemma CursorsAreInjective(a: string, b: string)
    requires EncodeCursor(a) == EncodeCursor(b)
    ensures a == b
  {
    hide EncodeUtf8, DecodeUtf8, Sextets, Octets, EncodeCursor, Kept;
    EncodedCursorIs(a);
    EncodedCursorIs(b);
    KeptSymbols(Sextets(EncodeUtf8(a)));
    KeptSymbols(Sextets(EncodeUtf8(b)));
    OctetsRoundTrip(EncodeUtf8(a));
    OctetsRoundTrip(EncodeUtf8(b));
    Utf8RoundTrip(a);
    Utf8RoundTrip(b);
  }

  /** The decoder alone is lenient: leftover bits and a final newline are read over, so distinct texts decode to the
      same key. Only the comparison with the re-encoded key refuses them. */
  lemma DecoderAloneIsLenient()
    ensures DecodeBase64("QQ", 2) == DecodeBase64("QR", 2) == Some([0x41])
    ensures MatchesPattern("QUFB\n") && DecodeBase64("QUFB\n", 3) == DecodeBase64("QUFB", 0)
    ensures DecodeCursor("QR") == Err(InvalidCursor) && DecodeCursor("QUFB\n") == Err(InvalidCursor)
  {
    hide DecodeCursor;
    assert DecodeBase64("QQ", 2) == DecodeBase64("QR", 2) == Some([0x41]) by {
      KeptTwo('Q', 'Q');
      KeptTwo('Q', 'R');
    }
    NewlineSkipped();
    NoNewlineInCursors("QUFB\n");
    LettersOnly();
  }

  lemma NewlineSkipped()
    ensures MatchesPattern("QUFB\n") && DecodeBase64("QUFB\n", 3) == DecodeBase64("QUFB", 0)
  {
    hide Octets;
    var quad, newline := ['Q', 'U', 'F', 'B'], ['\n'];
    assert newline[1..] == "";
    assert Kept(newline) == [] + Kept("");
    KeptFour('Q', 'U', 'F', 'B', newline);
    KeptFour('Q', 'U', 'F', 'B', "");
    assert "QUFB\n" == quad + newline && "QUFB" == quad + "";
    assert (quad + newline)[..4] == quad;
  }

  lemma NoNewlineInside(key: string)
    ensures '\n' !in EncodeCursor(key)
  {
    hide Sextets, EncodeUtf8, EncodeCursor;
    EncodedCursorIs(key);
    forall i | 0 <= i < |EncodeCursor(key)|
      ensures EncodeCursor(key)[i] != '\n'
    {
      SymbolRoundTrip(Sextets(EncodeUtf8(key))[i]);
    }
  }

  lemma NoNewlineInCursors(cursor: string)
    requires cursor != "" && cursor[|cursor| - 1] == '\n'
    ensures DecodeCursor(cursor) == Err(InvalidCursor)
  {
    hide DecodeBase64, DecodeUtf8, EncodeCursor, MatchesPattern;
    if DecodeCursor(cursor).Ok? {
      NoNewlineInside(DecodeCursor(cursor).value);
    }
  }

  lemma LettersOnly()
    ensures DecodeCursor("QR") == Err(InvalidCursor)
  {
    KeptTwo('Q', 'R');
    var bytes: seq<Byte> := [0x41];
    assert Octets([16, 17]) == bytes;
    assert bytes[1..] == [];
    assert DecodeUtf8(bytes) == Some("A") by {
      assert DecodeChar(bytes) == Some(('A', 1));
      assert DecodeUtf8([]) == Some("");
      assert ['A'] + "" == "A";
    }
    EncodedCursorIs("A");
    assert "A"[1..] == "";
    assert EncodeUtf8("A") == bytes;
    assert Symbols(Sextets(bytes))[1] == 'Q';
  }

  lemma KeptTwo(a: char, b: char)
    requires SymbolValue(a).Some? && SymbolValue(b).Some?
    ensures Kept([a, b]) == [SymbolValue(a).value, SymbolValue(b).value]
  {
    assert [a, b][1..] == [b];
    assert [b][1..] == "";
    assert Kept([b]) == [SymbolValue(b).value] + Kept("");
  }

  lemma KeptFour(a: char, b: char, c: char, d: char, rest: string)
    requires SymbolValue(a).Some? && SymbolValue(b).Some? && SymbolValue(c).Some? && SymbolValue(d).Some?
    ensures Kept([a, b, c, d] + rest) ==
            [SymbolValue(a).value, SymbolValue(b).value, SymbolValue(c).value, SymbolValue(d).value] + Kept(rest)
  {
    assert ([a, b, c, d] + rest)[1..] == [b, c, d] + rest;
    assert ([b, c, d] + rest)[1..] == [c, d] + rest;
    assert ([c, d] + rest)[1..] == [d] + rest;
    assert ([d] + rest)[1..] == rest;
    assert Kept([d] + rest) == [SymbolValue(d).value] + Kept(rest);
    assert Kept([c, d] + rest) == [SymbolValue(c).value, SymbolValue(d).value] + Kept(rest);
    assert Kept([b, c, d] + rest) == [SymbolValue(b).value, SymbolValue(c).value, SymbolValue(d).value] + Kept(rest);
  }

  // ---------------------------------------------------------------- cursors of the update-time orders

  /** What `json.loads` makes of a text it accepts. `Infinite` is a literal beyond the float range; the constants NaN and
      Infinity are refused by the reader itself. */
  datatype Json = Object(fields: map<string, Json>) | Text(text: string) | Bool(value: bool) | Whole(whole: int) |
                  Fraction(fraction: real) | Infinite | Other

  /** JSON text stays abstract: `dumps` writes the payload of an order cursor, `loads` reads any text (None when it raises)
      and `toFloat` is `float(n)` of an integer (None on overflow). */
  datatype JsonCodec = JsonCodec(dumps: (string, real, string) -> string, loads: string -> Option<Json>,
                                 toFloat: int -> Option<real>)

  // The reader gives back this payload as it was written.
  ghost predicate ReadsBack(codec: JsonCodec, order: string, stamp: real, key: string) {
    var text := codec.dumps(order, stamp, key);
    && text != "" && text[0] == '{'
    && codec.loads(text) == Some(Object(map["o" := Text(order), "u" := Fraction(stamp), "k" := Text(key)]))
  }

  function EncodeOrderCursor(codec: JsonCodec, order: string, updatedAt: Option<real>, key: string): string {
    EncodeCursor(codec.dumps(order, if updatedAt.Some? then updatedAt.value else 0.0, key))
  }

  function FiniteStamp(codec: JsonCodec, u: Json): Option<real> {
    match u
    case Whole(n) => codec.toFloat(n)
    case Fraction(r) => Some(r)
    case _ => None
  }

  predicate IsPayload(json: Json) {
    json.Object? && json.fields.Keys == {"o", "u", "k"}
  }

  function DecodeOrderCursor(codec: JsonCodec, cursor: string, order: string): Result<(real, string), CursorError> {
    match DecodeCursor(cursor)
    case Err(e) => Err(e)
    case Ok(text) =>
      var json := codec.loads(text);
      if json.None? || !IsPayload(json.value) || json.value.fields["o"] != Text(order) ||
         !json.value.fields["k"].Text? || json.value.fields["k"].text == ""
      then Err(InvalidCursor)
      else
        match FiniteStamp(codec, json.value.fields["u"])
        case None => Err(InvalidCursor)
        case Some(stamp) => Ok((stamp, json.value.fields["k"].text))
  }

  predicate IsOrderCursorPayload(codec: JsonCodec, key: string) {
    key != "" && key[0] == '{' && codec.loads(key).Some? && IsPayload(codec.loads(key).value)
  }

  /** The cursor of a key-ordered listing. */
  function ListAfterKey(codec: JsonCodec, cursor: string): Result<string, CursorError> {
    match DecodeCursor(cursor)
    case Err(e) => Err(e)
    case Ok(key) => if IsOrderCursorPayload(codec, key) then Err(InvalidCursor) else Ok(key)
  }

  /** An order cursor gives back its stamp and key under its own order and is refused under every other one, the key
      order included. */
  lemma OrderCursorRoundTrip(codec: JsonCodec, order: string, stamp: real, key: string, other: string)
    requires key != "" && other != order
    requires var text := codec.dumps(order, stamp, key);
      && text != "" && text[0] == '{'
      && codec.loads(text) == Some(Object(map["o" := Text(order), "u" := Fraction(stamp), "k" := Text(key)]))
    ensures EncodeOrderCursor(codec, order, None, key) == EncodeOrderCursor(codec, order, Some(0.0), key)
    ensures var cursor := EncodeOrderCursor(codec, order, Some(stamp), key);
      && DecodeOrderCursor(codec, cursor, order) == Ok((stamp, key))
      && DecodeOrderCursor(codec, cursor, other) == Err(InvalidCursor)
      && ListAfterKey(codec, cursor) == Err(InvalidCursor)
  {
    hide EncodeCursor, DecodeCursor;
    CursorRoundTrip(codec.dumps(order, stamp, key));
  }

  /** A key-ordered listing can continue after a key exactly when the key is not empty and not itself an order payload. */
  lemma KeysThatContinue(codec: JsonCodec, key: string)
    ensures ListAfterKey(codec, EncodeCursor(key)) == Ok(key) <==> key != "" && !IsOrderCursorPayload(codec, key)
    ensures ListAfterKey(codec, EncodeCursor(key)) == Ok(key) <==>
      key != "" && !(key[0] == '{' && codec.loads(key).Some? && codec.loads(key).value.Object? &&
                     codec.loads(key).value.fields.Keys == {"o", "u", "k"})
  {
    hide EncodeCursor, DecodeCursor;
    DecodeAcceptsExactlyEncodings(EncodeCursor(key), key);
  }

  /** Accepted order cursors are exactly the encodings of texts that read as a payload of that order with a finite stamp
      and a key. */
  lemma OrderCursorsAreExactlyPayloads(codec: JsonCodec, cursor: string, order: string, stamp: real, key: string)
    ensures DecodeOrderCursor(codec, cursor, order) == Ok((stamp, key)) <==>
      && key != ""
      && exists text ::
           && cursor == EncodeCursor(text) && text != ""
           && codec.loads(text).Some? && codec.loads(text).value.Object?
           && var fields := codec.loads(text).value.fields;
              && fields.Keys == {"o", "u", "k"} && fields["o"] == Text(order) && fields["k"] == Text(key)
              && (fields["u"] == Fraction(stamp) || (fields["u"].Whole? && codec.toFloat(fields["u"].whole) == Some(stamp)))
  {
    hide EncodeCursor, DecodeCursor;
    if DecodeCursor(cursor).Ok? {
      DecodeAcceptsExactlyEncodings(cursor, DecodeCursor(cursor).value);
    }
    if text :| && cursor == EncodeCursor(text) && text != ""
               && codec.loads(text).Some? && codec.loads(text).value.Object?
               && var fields := codec.loads(text).value.fields;
                  && fields.Keys == {"o", "u", "k"} && fields["o"] == Text(order) && fields["k"] == Text(key)
                  && (fields["u"] == Fraction(stamp) || (fields["u"].Whole? && codec.toFloat(fields["u"].whole) == Some(stamp))) {
      DecodeAcceptsExactlyEncodings(cursor, text);
    }
  }
}
