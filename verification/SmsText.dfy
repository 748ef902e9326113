/** Characters and how the three SMS alphabets carry them: UTF-8 reading and writing
    (sms/src/sms_intl.h), the GSM 7-bit default alphabet and UTF-16 (sms/src/sms_ud.c). */
module SmsText {
  import opened Arith
  import opened Basics
  import opened SmsPack

  // ---------- UTF-8 ----------

  /** A Unicode scalar value. */
  predicate Scalar(cp: nat) { cp <= 0x10FFFF && !(0xD800 <= cp <= 0xDFFF) }

  predicate Cont(c: byte) { 0x80 <= c < 0xC0 }

  datatype Chr = Chr(cp: nat, next: nat)

  /** The payload bits of a lead octet and its continuation octets, most significant first. */
  function Join2(a: nat, b: nat): nat { a * 64 + b }

  function Join3(a: nat, b: nat, c: nat): nat { a * 4096 + b * 64 + c }

  function Join4(a: nat, b: nat, c: nat, d: nat): nat { a * 262144 + b * 4096 + c * 64 + d }

  /** sms_utf8_next: the code point at i and where the next one starts; None for anything
      malformed, truncated, overlong, surrogate or out of range. */
  function Next(s: bytes, i: nat): (r: Option<Chr>)
    requires i < |s|
    ensures r.Some? ==> Scalar(r.value.cp) && i < r.value.next <= |s|
  {
    var c := s[i];
    if c < 0x80 then Some(Chr(c, i + 1))
    else if 0xC0 <= c < 0xE0 then
      if i + 2 > |s| || !Cont(s[i+1]) then None else
      var v := Join2(c - 0xC0, s[i+1] - 0x80);
      if v < 0x80 then None else Some(Chr(v, i + 2))
    else if 0xE0 <= c < 0xF0 then
      if i + 3 > |s| || !Cont(s[i+1]) || !Cont(s[i+2]) then None else
      var v := Join3(c - 0xE0, s[i+1] - 0x80, s[i+2] - 0x80);
      if v < 0x800 || !Scalar(v) then None else Some(Chr(v, i + 3))
    else if 0xF0 <= c < 0xF8 then
      if i + 4 > |s| || !Cont(s[i+1]) || !Cont(s[i+2]) || !Cont(s[i+3]) then None else
      var v := Join4(c - 0xF0, s[i+1] - 0x80, s[i+2] - 0x80, s[i+3] - 0x80);
      if v < 0x10000 || !Scalar(v) then None else Some(Chr(v, i + 4))
    else None
  }

  lemma Digits3(a: nat, b: nat, c: nat)
    requires b < 64 && c < 64
    ensures var v := Join3(a, b, c); v / 4096 == a && (v / 64) % 64 == b && v % 64 == c
  {
    DivModUnique(Join3(a, b, c), 4096, a, b * 64 + c);
    DivModUnique(Join3(a, b, c), 64, a * 64 + b, c);
    DivModUnique(a * 64 + b, 64, a, b);
  }

  lemma Digits4(a: nat, b: nat, c: nat, d: nat)
    requires b < 64 && c < 64 && d < 64
    ensures var v := Join4(a, b, c, d);
            v / 262144 == a && (v / 4096) % 64 == b && (v / 64) % 64 == c && v % 64 == d
  {
    var v := Join4(a, b, c, d);
    DivModUnique(v, 262144, a, b * 4096 + c * 64 + d);
    DivModUnique(v, 4096, a * 64 + b, c * 64 + d);
    DivModUnique(a * 64 + b, 64, a, b);
    DivModUnique(v, 64, a * 4096 + b * 64 + c, d);
    DivModUnique(a * 4096 + b * 64 + c, 64, a * 64 + b, c);
  }

  lemma Write2(a: byte, b: byte)
    requires 0xC0 <= a < 0xE0 && Cont(b) && Join2(a - 0xC0, b - 0x80) >= 0x80
    ensures Utf8(Join2(a - 0xC0, b - 0x80)) == [a, b]
  {
  }

  lemma Write3(a: byte, b: byte, c: byte)
    requires 0xE0 <= a < 0xF0 && Cont(b) && Cont(c) && Join3(a - 0xE0, b - 0x80, c - 0x80) >= 0x800
    ensures Join3(a - 0xE0, b - 0x80, c - 0x80) < 0x10000
    ensures Utf8(Join3(a - 0xE0, b - 0x80, c - 0x80)) == [a, b, c]
  {
    Digits3(a - 0xE0, b - 0x80, c - 0x80);
  }

  lemma Write4(a: byte, b: byte, c: byte, d: byte)
    requires 0xF0 <= a < 0xF8 && Cont(b) && Cont(c) && Cont(d)
    requires 0x10000 <= Join4(a - 0xF0, b - 0x80, c - 0x80, d - 0x80) <= 0x10FFFF
    ensures Utf8(Join4(a - 0xF0, b - 0x80, c - 0x80, d - 0x80)) == [a, b, c, d]
  {
    Digits4(a - 0xF0, b - 0x80, c - 0x80, d - 0x80);
  }

  /** Reading accepts only what writing produces. */
  lemma NextIsCanonical(s: bytes, i: nat)
    requires i < |s| && Next(s, i).Some?
    ensures s[i..Next(s, i).value.next] == Utf8(Next(s, i).value.cp)
  {
    hide Join2, Join3, Join4;
    var Chr(cp, j) := Next(s, i).value;
    if j == i + 1 {
      assert s[i..j] == [s[i]];
    } else {
      hide Utf8;
      if j == i + 2 {
        Write2(s[i], s[i+1]);
      } else if j == i + 3 {
        Write3(s[i], s[i+1], s[i+2]);
      } else {
        Write4(s[i], s[i+1], s[i+2], s[i+3]);
      }
    }
  }

  /** And all of it. */
  lemma NextReads(s: bytes, i: nat, cp: nat)
    requires Scalar(cp) && i + |Utf8(cp)| <= |s| && s[i..i + |Utf8(cp)|] == Utf8(cp)
    ensures Next(s, i) == Some(Chr(cp, i + |Utf8(cp)|))
  {
    hide Join2, Join3, Join4;
    var u := Utf8(cp);
    var x := s[i..i + |u|];
    assert forall k :: 0 <= k < |u| ==> s[i + k] == x[k];
    assert s[i + 0] == u[0];
    if 0x80 <= cp < 0x800 {
      assert s[i + 1] == u[1];
      Parts2(cp);
    } else if 0x800 <= cp < 0x10000 {
      assert s[i + 1] == u[1] && s[i + 2] == u[2];
      Parts3(cp);
    } else if cp >= 0x10000 {
      assert s[i + 1] == u[1] && s[i + 2] == u[2] && s[i + 3] == u[3];
      Parts4(cp);
    }
  }

  lemma Parts2(cp: nat)
    ensures Join2(cp / 64, cp % 64) == cp
  {
  }

  lemma Parts3(cp: nat)
    ensures Join3(cp / 4096, (cp / 64) % 64, cp % 64) == cp
  {
    assert cp / 4096 == (cp / 64) / 64;
  }

  lemma Parts4(cp: nat)
    ensures Join4(cp / 262144, (cp / 4096) % 64, (cp / 64) % 64, cp % 64) == cp
  {
    assert cp / 4096 == (cp / 64) / 64 && cp / 262144 == (cp / 4096) / 64;
  }

  // ---------- the GSM 7-bit default alphabet ----------

  type u16 = x: int | 0 <= x < 0x10000

  /** Table 6.2.1.1 of TS 23.038 read column by column, eight septets to the row. */
  function Row(r: nat): (t: seq<u16>)
    ensures |t| == 8
  {
    if r == 0 then [0x0040, 0x00A3, 0x0024, 0x00A5, 0x00E8, 0x00E9, 0x00F9, 0x00EC]
    else if r == 1 then [0x00F2, 0x00C7, 0x000A, 0x00D8, 0x00F8, 0x000D, 0x00C5, 0x00E5]
    else if r == 2 then [0x0394, 0x005F, 0x03A6, 0x0393, 0x039B, 0x03A9, 0x03A0, 0x03A8]
    else if r == 3 then [0x03A3, 0x0398, 0x039E, 0x001B, 0x00C6, 0x00E6, 0x00DF, 0x00C9]
    else if r == 4 then [0x0020, 0x0021, 0x0022, 0x0023, 0x00A4, 0x0025, 0x0026, 0x0027]
    else if r == 5 then [0x0028, 0x0029, 0x002A, 0x002B, 0x002C, 0x002D, 0x002E, 0x002F]
    else if r == 6 then [0x0030, 0x0031, 0x0032, 0x0033, 0x0034, 0x0035, 0x0036, 0x0037]
    else if r == 7 then [0x0038, 0x0039, 0x003A, 0x003B, 0x003C, 0x003D, 0x003E, 0x003F]
    else if r == 8 then [0x00A1, 0x0041, 0x0042, 0x0043, 0x0044, 0x0045, 0x0046, 0x0047]
    else if r == 9 then [0x0048, 0x0049, 0x004A, 0x004B, 0x004C, 0x004D, 0x004E, 0x004F]
    else if r == 10 then [0x0050, 0x0051, 0x0052, 0x0053, 0x0054, 0x0055, 0x0056, 0x0057]
    else if r == 11 then [0x0058, 0x0059, 0x005A, 0x00C4, 0x00D6, 0x00D1, 0x00DC, 0x00A7]
    else if r == 12 then [0x00BF, 0x0061, 0x0062, 0x0063, 0x0064, 0x0065, 0x0066, 0x0067]
    else if r == 13 then [0x0068, 0x0069, 0x006A, 0x006B, 0x006C, 0x006D, 0x006E, 0x006F]
    else if r == 14 then [0x0070, 0x0071, 0x0072, 0x0073, 0x0074, 0x0075, 0x0076, 0x0077]
    else [0x0078, 0x0079, 0x007A, 0x00E4, 0x00F6, 0x00F1, 0x00FC, 0x00E0]
  }

  /** The code point of a septet of the basic table. */
  function Basic(i: nat): u16
    requires i < 128
  {
    Row(i / 8)[i % 8]
  }

  const ESC: septet := 0x1B

  /** The extension table, as (septet, code point). */
  function ExtTable(): seq<(septet, u16)> {
    [(0x0A, 0x000C), (0x14, 0x005E), (0x28, 0x007B), (0x29, 0x007D), (0x2F, 0x005C),
     (0x3C, 0x005B), (0x3D, 0x007E), (0x3E, 0x005D), (0x40, 0x007C), (0x65, 0x20AC)]
  }

  function FindBasic(cp: nat, i: nat): (r: Option<nat>)
    requires i <= 128
    ensures r.Some? ==> i <= r.value < 128 && r.value != ESC && Basic(r.value) == cp
    ensures r.None? ==> forall k :: i <= k < 128 && k != ESC ==> Basic(k) != cp
    decreases 128 - i
  {
    if i == 128 then None
    else if i != ESC && Basic(i) == cp then Some(i)
    else FindBasic(cp, i + 1)
  }

  function FindExt(cp: nat, i: nat): (r: Option<nat>)
    requires i <= |ExtTable()|
    ensures r.Some? ==> i <= r.value < |ExtTable()| && ExtTable()[r.value].1 == cp
    decreases |ExtTable()| - i
  {
    if i == |ExtTable()| then None
    else if ExtTable()[i].1 == cp then Some(i)
    else FindExt(cp, i + 1)
  }

  function FindSeptet(s: septet, i: nat): (r: Option<nat>)
    requires i <= |ExtTable()|
    ensures r.Some? ==> i <= r.value < |ExtTable()| && ExtTable()[r.value].0 == s
    decreases |ExtTable()| - i
  {
    if i == |ExtTable()| then None
    else if ExtTable()[i].0 == s then Some(i)
    else FindSeptet(s, i + 1)
  }

  /** The septets a character takes: one, or an escape pair, or none at all. */
  function Gsm7(cp: nat): (r: Option<seq<septet>>)
    ensures r.Some? ==> 1 <= |r.value| <= 2
  {
    match FindBasic(cp, 0)
    case Some(i) => Some([i])
    case None =>
      match FindExt(cp, 0)
      case Some(k) => Some([ESC, ExtTable()[k].0])
      case None => None
  }

  /** What septet x means after an escape; an undefined position shows as a space. */
  function ExtChar(x: septet): u16 {
    match FindSeptet(x, 0) case Some(k) => ExtTable()[k].1 case None => 0x20
  }

  /** The escape pairs are told apart by their second septet. */
  lemma ExtInverse(k: nat)
    requires k < |ExtTable()|
    ensures FindSeptet(ExtTable()[k].0, 0) == Some(k)
  {
    FindSeptetFirst(ExtTable()[k].0, 0, k);
  }

  lemma {:induction false} FindSeptetFirst(s: septet, i: nat, k: nat)
    requires i <= k < |ExtTable()| && ExtTable()[k].0 == s
    requires forall j :: i <= j < k ==> ExtTable()[j].0 != s
    ensures FindSeptet(s, i) == Some(k)
    decreases k - i
  {
    if i < k { FindSeptetFirst(s, i + 1, k); }
  }

  /** Septets as UTF-8 text. */
  function SeptetText(ss: seq<septet>): bytes
    decreases |ss|
  {
    if ss == [] then []
    else if ss[0] != ESC then Utf8(Basic(ss[0])) + SeptetText(ss[1..])
    else if |ss| == 1 then Utf8(0x20)
    else Utf8(ExtChar(ss[1])) + SeptetText(ss[2..])
  }

  /** A mapped character reads back as itself, whatever follows. */
  lemma Gsm7Reads(cp: nat, rest: seq<septet>)
    requires Scalar(cp) && Gsm7(cp).Some?
    ensures SeptetText(Gsm7(cp).value + rest) == Utf8(cp) + SeptetText(rest)
  {
    hide Utf8, Row, FindBasic, FindSeptet;
    var g := Gsm7(cp).value;
    if |g| == 1 {
      assert (g + rest)[1..] == rest;
    } else {
      ExtInverse(FindExt(cp, 0).value);
      assert (g + rest)[2..] == rest;
    }
  }

  // ---------- the alphabet, character by character ----------

  /** Where the alphabet is ASCII: line feed, carriage return, space to Z but for the dollar and the
      at sign, and the small letters. */
  predicate Identity(cp: nat) {
    cp == 0x0A || cp == 0x0D || (0x20 <= cp <= 0x5A && cp != 0x24 && cp != 0x40) || 0x61 <= cp <= 0x7A
  }

  /** Where it is not: signs, accented letters and Greek capitals, each with its septet. */
  function Sign(cp: nat): Option<septet> {
    if cp == 0x0024 then Some(0x02) else if cp == 0x0040 then Some(0x00) else
    if cp == 0x005F then Some(0x11) else if cp == 0x00A1 then Some(0x40) else
    if cp == 0x00A3 then Some(0x01) else if cp == 0x00A4 then Some(0x24) else
    if cp == 0x00A5 then Some(0x03) else if cp == 0x00A7 then Some(0x5F) else
    if cp == 0x00BF then Some(0x60) else None
  }

  function Accented(cp: nat): Option<septet> {
    if cp == 0x00C4 then Some(0x5B) else if cp == 0x00C5 then Some(0x0E) else
    if cp == 0x00C6 then Some(0x1C) else if cp == 0x00C7 then Some(0x09) else
    if cp == 0x00C9 then Some(0x1F) else if cp == 0x00D1 then Some(0x5D) else
    if cp == 0x00D6 then Some(0x5C) else if cp == 0x00D8 then Some(0x0B) else
    if cp == 0x00DC then Some(0x5E) else if cp == 0x00DF then Some(0x1E) else
    if cp == 0x00E0 then Some(0x7F) else if cp == 0x00E4 then Some(0x7B) else
    if cp == 0x00E5 then Some(0x0F) else if cp == 0x00E6 then Some(0x1D) else
    if cp == 0x00E8 then Some(0x04) else if cp == 0x00E9 then Some(0x05) else
    if cp == 0x00EC then Some(0x07) else if cp == 0x00F1 then Some(0x7D) else
    if cp == 0x00F2 then Some(0x08) else if cp == 0x00F6 then Some(0x7C) else
    if cp == 0x00F8 then Some(0x0C) else if cp == 0x00F9 then Some(0x06) else
    if cp == 0x00FC then Some(0x7E) else None
  }

  function Greek(cp: nat): Option<septet> {
    if cp == 0x0393 then Some(0x13) else if cp == 0x0394 then Some(0x10) else
    if cp == 0x0398 then Some(0x19) else if cp == 0x039B then Some(0x14) else
    if cp == 0x039E then Some(0x1A) else if cp == 0x03A0 then Some(0x16) else
    if cp == 0x03A3 then Some(0x18) else if cp == 0x03A6 then Some(0x12) else
    if cp == 0x03A8 then Some(0x17) else if cp == 0x03A9 then Some(0x15) else None
  }

  /** The ten characters behind an escape. */
  function Escaped(cp: nat): Option<septet> {
    if cp == 0x0C then Some(0x0A) else if cp == 0x5B then Some(0x3C) else if cp == 0x5C then Some(0x2F) else
    if cp == 0x5D then Some(0x3E) else if cp == 0x5E then Some(0x14) else if cp == 0x7B then Some(0x28) else
    if cp == 0x7C then Some(0x40) else if cp == 0x7D then Some(0x29) else if cp == 0x7E then Some(0x3D) else
    if cp == 0x20AC then Some(0x65) else None
  }

  function Single(cp: nat): Option<septet> {
    if Identity(cp) then Some(cp) else if cp < 0xC0 then Sign(cp) else if cp < 0x300 then Accented(cp) else Greek(cp)
  }

  /** The rows of the table, each against the list. */
  predicate RowOk(r: nat)
    requires r < 16
  {
    forall k :: 0 <= k < 8 && 8 * r + k != 0x1B ==>
                  Single(Row(r)[k]) == Some(8 * r + k) && (Identity(8 * r + k) ==> Row(r)[k] == 8 * r + k)
  }

  lemma RowsOk(r: nat)
    requires r < 16
    ensures RowOk(r)
  {
    hide RowOk;
    if r < 2 { Rows0(); } else if r < 4 { Rows2(); } else if r < 6 { Rows4(); } else if r < 8 { Rows6(); }
    else if r < 10 { Rows8(); } else if r < 12 { Rows10(); } else if r < 14 { Rows12(); } else { Rows14(); }
  }

  lemma Rows0()
    ensures RowOk(0) && RowOk(1)
  {
  }

  lemma Rows2()
    ensures RowOk(2) && RowOk(3)
  {
  }

  lemma Rows4()
    ensures RowOk(4) && RowOk(5)
  {
  }

  lemma Rows6()
    ensures RowOk(6) && RowOk(7)
  {
  }

  lemma Rows8()
    ensures RowOk(8) && RowOk(9)
  {
  }

  lemma Rows10()
    ensures RowOk(10) && RowOk(11)
  {
  }

  lemma Rows12()
    ensures RowOk(12) && RowOk(13)
  {
  }

  lemma Rows14()
    ensures RowOk(14) && RowOk(15)
  {
  }

  lemma SingleOf(i: nat)
    requires i < 128 && i != 0x1B
    ensures Single(Basic(i)) == Some(i)
  {
    hide Row, Single;
    RowsOk(i / 8);
  }

  lemma OnlySingle(cp: nat)
    requires Single(cp).Some?
    ensures Single(cp).value != 0x1B && Basic(Single(cp).value) == cp
  {
    if Identity(cp) {
      hide Row, Single;
      RowsOk(cp / 8);
    } else if cp < 0xC0 {
      SignPlace(cp);
    } else if cp < 0x300 {
      AccentedPlace(cp);
    } else {
      GreekPlace(cp);
    }
  }

  lemma SignPlace(cp: nat)
    requires Sign(cp).Some?
    ensures Sign(cp).value != 0x1B && Basic(Sign(cp).value) == cp
  {
  }

  lemma AccentedPlace(cp: nat)
    requires Accented(cp).Some?
    ensures Accented(cp).value != 0x1B && Basic(Accented(cp).value) == cp
  {
  }

  lemma GreekPlace(cp: nat)
    requires Greek(cp).Some?
    ensures Greek(cp).value != 0x1B && Basic(Greek(cp).value) == cp
  {
  }

  /** What every character takes: one septet, an escape and a septet, or it is not in the alphabet. */
  lemma DefaultAlphabet(cp: nat)
    ensures Gsm7(cp) == match Single(cp)
                        case Some(s) => Some([s])
                        case None => match Escaped(cp) case Some(s) => Some([0x1B, s]) case None => None
  {
    hide Row, Basic, Single;
    if Single(cp).Some? { OnlySingle(cp); }
    var r := FindBasic(cp, 0);
    if r.Some? { SingleOf(r.value); }
    ExtFound(cp, 0);
  }

  lemma ExtFound(cp: nat, i: nat)
    ensures match FindExt(cp, 0) case Some(k) => Escaped(cp) == Some(ExtTable()[k].0) case None => Escaped(cp) == None
  {
    FindExtAll(cp, 0);
  }

  lemma {:induction false} FindExtAll(cp: nat, i: nat)
    requires i <= |ExtTable()|
    ensures FindExt(cp, i).None? ==> forall k :: i <= k < |ExtTable()| ==> ExtTable()[k].1 != cp
    decreases |ExtTable()| - i
  {
    if i < |ExtTable()| { FindExtAll(cp, i + 1); }
  }

  /** And what every septet shows; behind an escape a position without a character is a space. */
  lemma SeptetShows(x: septet, rest: seq<septet>)
    ensures x != 0x1B ==> Single(Basic(x)) == Some(x) && SeptetText([x] + rest) == Utf8(Basic(x)) + SeptetText(rest)
    ensures SeptetText([0x1B, x] + rest) == Utf8(ExtChar(x)) + SeptetText(rest)
    ensures if exists cp: nat :: Escaped(cp) == Some(x) then Escaped(ExtChar(x)) == Some(x) else ExtChar(x) == 0x20
  {
    hide Row, Utf8, Basic, Single;
    assert ([x] + rest)[1..] == rest && ([0x1B, x] + rest)[2..] == rest;
    if x != 0x1B { SingleOf(x); }
    ExtShows(x);
  }

  lemma ExtShows(x: septet)
    ensures if exists cp: nat :: Escaped(cp) == Some(x) then Escaped(ExtChar(x)) == Some(x) else ExtChar(x) == 0x20
  {
    if cp: nat :| Escaped(cp) == Some(x) {
      ExtFound(cp, 0);
      EscapedListed(cp);
      var k :| 0 <= k < |ExtTable()| && ExtTable()[k] == (x, cp);
      ExtInverse(k);
    } else if FindSeptet(x, 0).Some? {
      ListedEscaped(FindSeptet(x, 0).value);
    }
  }

  lemma ListedEscaped(k: nat)
    requires k < |ExtTable()|
    ensures Escaped(ExtTable()[k].1) == Some(ExtTable()[k].0)
  {
  }

  lemma EscapedListed(cp: nat)
    requires Escaped(cp).Some?
    ensures exists k :: 0 <= k < |ExtTable()| && ExtTable()[k] == (Escaped(cp).value, cp)
  {
    FindExtAll(cp, 0);
    ExtFound(cp, 0);
    var k := FindExt(cp, 0).value;
    assert ExtTable()[k] == (Escaped(cp).value, cp);
  }

  // ---------- UTF-16 ----------

  function Be16(u: nat): bytes
    requires u < 0x10000
  {
    [u / 256, u % 256]
  }

  function Word(b: bytes, i: nat): u16
    requires i + 2 <= |b|
  {
    var hi: int := b[i];
    hi * 256 + b[i + 1]
  }

  /** A scalar as UTF-16, big-endian; a pair of surrogates past the BMP. */
  function Utf16(cp: nat): (r: bytes)
    requires Scalar(cp)
    ensures |r| == if cp < 0x10000 then 2 else 4
  {
    if cp < 0x10000 then Be16(cp)
    else var v := cp - 0x10000; Be16(0xD800 + v / 1024) + Be16(0xDC00 + v % 1024)
  }

  /** The high octet of a unit comes first; two units past the basic plane, a high surrogate and a
      low one with ten bits each. */
  lemma Utf16Bits(cp: nat)
    requires Scalar(cp)
    ensures var r: seq<int> := Utf16(cp);
            if |r| == 2 then cp == r[0] * 256 + r[1]
            else && |r| == 4 && 0xD8 <= r[0] <= 0xDB && 0xDC <= r[2] <= 0xDF
                 && cp == 0x10000 + (r[0] * 256 + r[1] - 0xD800) * 1024 + (r[2] * 256 + r[3] - 0xDC00)
  {
  }

  /** UTF-16 octets as UTF-8 text; a surrogate standing alone shows as U+FFFD and an odd last
      octet is dropped. */
  function Utf16Text(b: bytes): bytes
    decreases |b|
  {
    if |b| < 2 then [] else
    var u := Word(b, 0);
    var lo := if 0xD800 <= u <= 0xDBFF && |b| >= 4 then Word(b, 2) else 0;
    if 0xDC00 <= lo <= 0xDFFF then
      Utf8(0x10000 + (u - 0xD800) * 1024 + (lo - 0xDC00)) + Utf16Text(b[4..])
    else
      Utf8(if 0xD800 <= u <= 0xDFFF then 0xFFFD else u) + Utf16Text(b[2..])
  }

  lemma Utf16Reads(cp: nat, rest: bytes)
    requires Scalar(cp)
    ensures Utf16Text(Utf16(cp) + rest) == Utf8(cp) + Utf16Text(rest)
  {
    hide Utf8;
    var b := Utf16(cp) + rest;
    if cp < 0x10000 {
      assert b[2..] == rest && Word(b, 0) == cp;
    } else {
      var v := cp - 0x10000;
      assert b[4..] == rest;
      assert Word(b, 0) == 0xD800 + v / 1024 && Word(b, 2) == 0xDC00 + v % 1024;
    }
  }

  /** Any octets show as text, unit by unit: a unit that is no surrogate as its character; a high
      surrogate with the low one behind it as the character they stand for; any other surrogate as
      U+FFFD; a last odd octet as nothing. */
  lemma UnitShows(b: bytes)
    requires |b| >= 2 && !(0xD8 <= b[0] <= 0xDF)
    ensures Utf16Text(b) == Utf8(b[0] as int * 256 + b[1] as int) + Utf16Text(b[2..])
  {
    WordRange(b, 0);
    hide Utf8, Word;
  }

  lemma LoneShows(b: bytes)
    requires |b| >= 2 && 0xD8 <= b[0] <= 0xDF && !(|b| >= 4 && b[0] <= 0xDB && 0xDC <= b[2] <= 0xDF)
    ensures Utf16Text(b) == [0xEF, 0xBF, 0xBD] + Utf16Text(b[2..])
  {
    WordRange(b, 0);
    if |b| >= 4 { WordRange(b, 2); }
    Utf8Replacement();
    hide Utf8, Word;
  }

  lemma WordRange(b: bytes, i: nat)
    requires i + 2 <= |b|
    ensures Word(b, i) == b[i] as int * 256 + b[i + 1]
    ensures 0xD800 <= Word(b, i) <= 0xDFFF <==> 0xD8 <= b[i] <= 0xDF
    ensures 0xD800 <= Word(b, i) <= 0xDBFF <==> 0xD8 <= b[i] <= 0xDB
    ensures 0xDC00 <= Word(b, i) <= 0xDFFF <==> 0xDC <= b[i] <= 0xDF
  {
  }

  lemma PairShows(b: bytes)
    requires |b| >= 4 && 0xD8 <= b[0] <= 0xDB && 0xDC <= b[2] <= 0xDF
    ensures var cp := 0x10000 + ((b[0] as int - 0xD8) * 256 + b[1] as int) * 1024 + (b[2] as int - 0xDC) * 256 + b[3] as int;
            cp <= 0x10FFFF && Utf16Text(b) == Utf8(cp) + Utf16Text(b[4..])
  {
    hide Utf8;
    assert Word(b, 0) - 0xD800 == (b[0] as int - 0xD8) * 256 + b[1] as int;
    assert Word(b, 2) - 0xDC00 == (b[2] as int - 0xDC) * 256 + b[3] as int;
  }

  lemma Utf8Replacement()
    ensures Utf8(0xFFFD) == [0xEF, 0xBF, 0xBD]
  {
  }
}
