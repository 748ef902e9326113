/** Bytes, character classes and the string escape layer of the JSON codec
    (json/src/json_str.c, json/src/json_intl.h). */
module JsonText {
  import opened Basics

  const QUOTE: byte := 0x22
  const BACKSLASH: byte := 0x5C
  const COMMA: byte := 0x2C
  const COLON: byte := 0x3A
  const MINUS: byte := 0x2D
  const NEWLINE: byte := 0x0A
  const SPACE: byte := 0x20
  const LBRACE: byte := 0x7B
  const RBRACE: byte := 0x7D
  const LBRACKET: byte := 0x5B
  const RBRACKET: byte := 0x5D
  const ZERO: byte := 0x30
  const LOWER_U: byte := 0x75

  predicate IsWs(c: byte) { c == 0x20 || c == 0x09 || c == 0x0A || c == 0x0D }

  predicate IsDigit(c: byte) { 0x30 <= c <= 0x39 }

  /** What a hex digit stands for; -1 for any other byte. */
  function Hex(c: byte): int {
    if 0x30 <= c <= 0x39 then c - 0x30
    else if 0x61 <= c <= 0x66 then c - 0x61 + 10
    else if 0x41 <= c <= 0x46 then c - 0x41 + 10
    else -1
  }

  predicate IsHex(c: byte) { Hex(c) >= 0 }

  function HexDigit(n: nat): byte
    requires n < 16
  {
    if n < 10 then 0x30 + n else 0x61 + n - 10
  }

  // ---------- reading an escaped body ----------

  /** The four hex digits at b[i..i+4], or -1. */
  function Hex4(b: bytes, i: nat): (v: int)
    requires i + 4 <= |b|
    ensures -1 <= v < 0x10000
    ensures v >= 0 <==> IsHex(b[i]) && IsHex(b[i+1]) && IsHex(b[i+2]) && IsHex(b[i+3])
  {
    var h0, h1, h2, h3 := Hex(b[i]), Hex(b[i+1]), Hex(b[i+2]), Hex(b[i+3]);
    if h0 < 0 || h1 < 0 || h2 < 0 || h3 < 0 then -1
    else h0 * 4096 + h1 * 256 + h2 * 16 + h3
  }

  /** A decoded character: the bytes it stands for and how much of the body it used. */
  datatype Chr = Chr(out: bytes, used: nat)

  predicate SimpleEscape(c: byte) {
    c == QUOTE || c == BACKSLASH || c == 0x2F || c == 0x62 || c == 0x66 || c == 0x6E || c == 0x72 || c == 0x74
  }

  function SimpleValue(c: byte): byte {
    if c == 0x62 then 0x08
    else if c == 0x66 then 0x0C
    else if c == 0x6E then 0x0A
    else if c == 0x72 then 0x0D
    else if c == 0x74 then 0x09
    else c
  }

  /** The code point a \u escape names, and its length: 12 for a surrogate pair. An unpaired
      surrogate reads as U+FFFD. */
  function UnicodeEscape(b: bytes): (r: Option<(nat, nat)>)
    requires |b| >= 6
    ensures r.Some? ==> r.value.0 <= 0x10FFFF && 6 <= r.value.1 <= |b|
    ensures r.Some? ==> |Utf8(r.value.0)| <= r.value.1
  {
    var h := Hex4(b, 2);
    if h < 0 then None
    else if 0xD800 <= h <= 0xDBFF then
      var lo := if |b| >= 12 && b[6] == BACKSLASH && b[7] == LOWER_U then Hex4(b, 8) else -1;
      if 0xDC00 <= lo <= 0xDFFF then Some((0x10000 + (h - 0xD800) * 1024 + (lo - 0xDC00), 12))
      else Some((0xFFFD, 6))
    else if 0xDC00 <= h <= 0xDFFF then Some((0xFFFD, 6))
    else Some((h, 6))
  }

  /** json_next_chr: the first character of a nonempty body, or None for a bad escape. */
  function NextChr(b: bytes): (r: Option<Chr>)
    requires |b| > 0
    ensures r.Some? ==> 1 <= r.value.used <= |b| && 1 <= |r.value.out| <= r.value.used
  {
    if b[0] != BACKSLASH then Some(Chr([b[0]], 1))
    else if |b| < 2 then None
    else if SimpleEscape(b[1]) then Some(Chr([SimpleValue(b[1])], 2))
    else if b[1] != LOWER_U || |b| < 6 then None
    else match UnicodeEscape(b)
      case None => None
      case Some(e) => Some(Chr(Utf8(e.0), e.1))
  }

  /** What an escaped body stands for; None when an escape is malformed. It is never longer
      than the body, so a buffer of the body's size always suffices. */
  function Expand(b: bytes): (r: Option<bytes>)
    ensures r.Some? ==> |r.value| <= |b|
    decreases |b|
  {
    if b == [] then Some([])
    else match NextChr(b)
      case None => None
      case Some(c) =>
        match Expand(b[c.used..])
        case None => None
        case Some(rest) => Some(c.out + rest)
  }

  /** The value of a stored body; the flag says whether it holds a backslash. */
  function BodyValue(b: bytes, esc: bool): Option<bytes> {
    if !esc then Some(b) else Expand(b)
  }

  lemma {:induction false} PlainExpands(b: bytes)
    requires BACKSLASH !in b
    ensures Expand(b) == Some(b)
    decreases |b|
  {
    if b != [] {
      PlainExpands(b[1..]);
      assert b == [b[0]] + b[1..];
    }
  }

  // ---------- what each escape means ----------

  /** What a body stands for, behind some octets already read. */
  function Behind(out: bytes, r: Option<bytes>): Option<bytes> {
    match r case None => None case Some(x) => Some(out + x)
  }

  lemma ExpandFirst(b: bytes)
    requires b != []
    ensures Expand(b) == match NextChr(b) case None => None case Some(c) => Behind(c.out, Expand(b[c.used..]))
  {
    hide NextChr;
  }

  /** An octet other than the backslash stands for itself. */
  lemma PlainReads(c: byte, rest: bytes)
    requires c != 0x5C
    ensures Expand([c] + rest) == Behind([c], Expand(rest))
  {
    var b := [c] + rest;
    ExpandFirst(b);
    assert b[1..] == rest;
  }

  /** The two-octet escapes of section 7 of RFC 8259. */
  const SHORT_ESCAPES: map<byte, byte> :=
    map[0x22 := 0x22, 0x5C := 0x5C, 0x2F := 0x2F, 0x62 := 0x08, 0x66 := 0x0C, 0x6E := 0x0A, 0x72 := 0x0D, 0x74 := 0x09]

  lemma ShortReads(c: byte, rest: bytes)
    requires c != 0x75
    ensures Expand([0x5C, c] + rest) == if c in SHORT_ESCAPES then Behind([SHORT_ESCAPES[c]], Expand(rest)) else None
  {
    var b := [0x5C, c] + rest;
    ExpandFirst(b);
    assert b[0] == BACKSLASH && b[1] == c;
    if c in SHORT_ESCAPES { assert b[2..] == rest; }
  }

  /** c is the digit of value d, in either case. */
  predicate Spells(c: byte, d: nat) {
    (d < 10 && c == 0x30 + d) || (10 <= d < 16 && (c == 0x61 + d - 10 || c == 0x41 + d - 10))
  }

  /** u spells v in base 16. */
  predicate Spelled(u: bytes, v: nat) {
    |u| == 4 && Spells(u[0], v / 4096) && Spells(u[1], v / 256 % 16) && Spells(u[2], v / 16 % 16) && Spells(u[3], v % 16)
  }

  lemma SpelledReads(u: bytes, v: nat, b: bytes, i: nat)
    requires Spelled(u, v) && i + 4 <= |b| && b[i..i + 4] == u
    ensures v < 0x10000 && Hex4(b, i) == v
  {
    assert b[i] == u[0] && b[i + 1] == u[1] && b[i + 2] == u[2] && b[i + 3] == u[3];
    assert v / 256 == v / 4096 * 16 + v / 256 % 16 && v / 16 == v / 256 * 16 + v / 16 % 16 by {
      assert v / 4096 == v / 256 / 16 && v / 256 == v / 16 / 16;
    }
  }

  /** A character of the basic plane, by its four digits; a surrogate that stands alone is
      U+FFFD. */
  lemma UnicodeReads(u: bytes, v: nat, rest: bytes)
    requires Spelled(u, v)
    requires 0xD800 <= v <= 0xDBFF ==> !(|rest| >= 6 && rest[0] == 0x5C && rest[1] == 0x75)
    ensures v < 0x10000
    ensures Expand([0x5C, 0x75] + u + rest) == Behind(Utf8(if 0xD800 <= v <= 0xDFFF then 0xFFFD else v), Expand(rest))
  {
    hide Utf8, Hex4;
    var b := [0x5C, 0x75] + u + rest;
    assert b[2..6] == u && b[6..] == rest;
    SpelledReads(u, v, b, 2);
    ExpandFirst(b);
    assert b[0] == BACKSLASH && b[1] == LOWER_U;
    if |rest| >= 6 { assert b[6] == rest[0] && b[7] == rest[1]; }
    assert UnicodeEscape(b) == Some((if 0xD800 <= v <= 0xDFFF then 0xFFFD else v, 6));
  }

  /** Two escapes in a row of which the first is a high surrogate: a pair is one character past the
      basic plane, and without its low half the first stands alone. */
  lemma PairReads(u: bytes, v: nat, w: bytes, x: nat, rest: bytes)
    requires Spelled(u, v) && Spelled(w, x) && 0xD800 <= v <= 0xDBFF
    ensures Expand([0x5C, 0x75] + u + ([0x5C, 0x75] + w + rest)) ==
            if 0xDC00 <= x <= 0xDFFF then Behind(Utf8(0x10000 + (v - 0xD800) * 1024 + (x - 0xDC00)), Expand(rest))
            else Behind(Utf8(0xFFFD), Expand([0x5C, 0x75] + w + rest))
  {
    hide Utf8, Hex4;
    var more := [0x5C, 0x75] + w + rest;
    var b := [0x5C, 0x75] + u + more;
    assert b[2..6] == u && b[6..] == more && b[8..12] == w && b[12..] == rest;
    SpelledReads(u, v, b, 2);
    SpelledReads(w, x, b, 8);
    ExpandFirst(b);
    assert b[0] == b[6] == BACKSLASH && b[1] == b[7] == LOWER_U;
  }

  /** A scalar past the basic plane, written as its surrogates. */
  lemma AstralReads(cp: nat, u: bytes, w: bytes, rest: bytes)
    requires 0x10000 <= cp <= 0x10FFFF
    requires Spelled(u, 0xD800 + (cp - 0x10000) / 0x400) && Spelled(w, 0xDC00 + (cp - 0x10000) % 0x400)
    ensures Expand([0x5C, 0x75] + u + ([0x5C, 0x75] + w + rest)) == Behind(Utf8(cp), Expand(rest))
  {
    hide Utf8, Expand, Spelled;
    var v := cp - 0x10000;
    PairReads(u, 0xD800 + v / 0x400, w, 0xDC00 + v % 0x400, rest);
  }

  /** Four octets that are not all digits, or fewer than four, make the body malformed. */
  lemma BadUnicode(rest: bytes)
    requires |rest| < 4 || !(Digit16(rest[0]) && Digit16(rest[1]) && Digit16(rest[2]) && Digit16(rest[3]))
    ensures Expand([0x5C, 0x75] + rest) == None
  {
    hide Utf8, Expand, Hex;
    var b := [0x5C, 0x75] + rest;
    ExpandFirst(b);
    assert b[0] == BACKSLASH && b[1] == LOWER_U;
    if |rest| >= 4 {
      assert b[2] == rest[0] && b[3] == rest[1] && b[4] == rest[2] && b[5] == rest[3];
      DigitsAre(rest[0]);
      DigitsAre(rest[1]);
      DigitsAre(rest[2]);
      DigitsAre(rest[3]);
    }
  }

  predicate Digit16(c: byte) { 0x30 <= c <= 0x39 || 0x41 <= c <= 0x46 || 0x61 <= c <= 0x66 }

  lemma DigitsAre(c: byte)
    ensures IsHex(c) <==> Digit16(c)
  {
  }

  // ---------- writing an escaped body ----------

  /** How one byte is written inside a string. */
  function EscapeByte(c: byte): (r: bytes)
    ensures 1 <= |r| <= 6
  {
    if c == 0x22 then [BACKSLASH, QUOTE]
    else if c == 0x5C then [BACKSLASH, BACKSLASH]
    else if c == 0x08 then [BACKSLASH, 0x62]
    else if c == 0x0C then [BACKSLASH, 0x66]
    else if c == 0x0A then [BACKSLASH, 0x6E]
    else if c == 0x0D then [BACKSLASH, 0x72]
    else if c == 0x09 then [BACKSLASH, 0x74]
    else if c >= 0x20 then [c]
    else [BACKSLASH, LOWER_U, ZERO, ZERO, HexDigit(c / 16), HexDigit(c % 16)]
  }

  function Escape(s: bytes): bytes
    decreases |s|
  {
    if s == [] then [] else EscapeByte(s[0]) + Escape(s[1..])
  }

  lemma {:induction false} EscapeAppend(s: bytes, t: bytes)
    ensures Escape(s + t) == Escape(s) + Escape(t)
    decreases |s|
  {
    hide EscapeByte;
    if s == [] {
      assert s + t == t;
    } else {
      EscapeAppend(s[1..], t);
      assert (s + t)[1..] == s[1..] + t;
    }
  }

  /** Reading back one escaped byte, whatever follows it. */
  lemma EscapedByteReads(c: byte, rest: bytes)
    ensures NextChr(EscapeByte(c) + rest) == Some(Chr([c], |EscapeByte(c)|))
  {
    var b := EscapeByte(c) + rest;
    if c < 0x20 && |EscapeByte(c)| == 6 {
      assert b[..6] == EscapeByte(c);
      assert Hex4(b, 2) == c;
    }
  }

  /** Escaping is undone by reading, for every byte string. */
  lemma {:induction false} EscapeRoundTrip(s: bytes)
    ensures Expand(Escape(s)) == Some(s)
    decreases |s|
  {
    if s != [] {
      var rest := Escape(s[1..]);
      EscapedByteReads(s[0], rest);
      EscapeRoundTrip(s[1..]);
      assert (EscapeByte(s[0]) + rest)[|EscapeByte(s[0])|..] == rest;
      assert s == [s[0]] + s[1..];
    }
  }
}
