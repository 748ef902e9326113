/** Octets, options and the UTF-8 form of a code point, shared by the codecs. */
module Basics {

  datatype Option<+T> = None | Some(value: T)

  type byte = b: int | 0 <= b < 256
  type bytes = seq<byte>

  /** One code point as UTF-8; four octets is the maximum RFC 3629 allows. */
  function Utf8(cp: nat): (r: bytes)
    requires cp <= 0x10FFFF
    ensures 1 <= |r| <= 4
  {
    if cp < 0x80 then [cp]
    else if cp < 0x800 then [0xC0 + cp / 64, 0x80 + cp % 64]
    else if cp < 0x10000 then [0xE0 + cp / 4096, 0x80 + (cp / 64) % 64, 0x80 + cp % 64]
    else [0xF0 + cp / 262144, 0x80 + (cp / 4096) % 64, 0x80 + (cp / 64) % 64, 0x80 + cp % 64]
  }

  /** Its lead octet tells the length, its other octets carry six bits each, and the bits spell the
      code point, in no more octets than it needs. */
  lemma Utf8Bits(cp: nat)
    requires cp <= 0x10FFFF
    ensures var r: seq<int> := Utf8(cp);
            && (forall i :: 1 <= i < |r| ==> 0x80 <= r[i] <= 0xBF)
            && match |r|
               case 1 => r[0] < 0x80 && cp == r[0]
               case 2 => 0xC0 <= r[0] <= 0xDF && 0x80 <= cp == (r[0] - 0xC0) * 64 + (r[1] - 0x80)
               case 3 => && 0xE0 <= r[0] <= 0xEF
                         && 0x800 <= cp == (r[0] - 0xE0) * 4096 + (r[1] - 0x80) * 64 + (r[2] - 0x80)
               case _ => && 0xF0 <= r[0] <= 0xF4
                         && 0x10000 <= cp == (r[0] - 0xF0) * 262144 + (r[1] - 0x80) * 4096 + (r[2] - 0x80) * 64 + (r[3] - 0x80)
  {
    assert cp / 4096 == cp / 64 / 64 && cp / 262144 == cp / 4096 / 64;
  }
}
