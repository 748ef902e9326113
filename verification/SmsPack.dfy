/** Septet packing (sms_gsm7_pack, sms_gsm7_unpack) read as arithmetic on little-endian
    numbers. */
module SmsPack {
  import opened Arith
  import opened Basics

  type septet = b: int | 0 <= b < 128

  datatype Err = Short | Length | Overflow | Inval | Alphabet | Mti

  datatype Res<+T> = Ok(val: T) | Fail(err: Err)

  // ---------- numbers ----------

  /** A run of octets as a number, least significant first. */
  function LE(b: bytes): nat {
    if b == [] then 0 else LE(b[..|b| - 1]) + b[|b| - 1] * Pow2(8 * (|b| - 1))
  }

  /** Septets as the base-128 digits of a number. */
  function B128(s: seq<septet>): nat {
    if s == [] then 0 else B128(s[..|s| - 1]) + s[|s| - 1] * Pow2(7 * (|s| - 1))
  }

  lemma {:induction false} LEBound(b: bytes)
    ensures LE(b) < Pow2(8 * |b|)
    decreases |b|
  {
    hide Pow2;
    if b != [] {
      var n := |b| - 1;
      LEBound(b[..n]);
      Pow2Add(8, 8 * n);
      Pow2Small(8);
      DigitBound(LE(b[..n]), b[n], Pow2(8 * n), 256);
    }
  }

  lemma {:induction false} B128Bound(s: seq<septet>)
    ensures B128(s) < Pow2(7 * |s|)
    decreases |s|
  {
    hide Pow2;
    if s != [] {
      var n := |s| - 1;
      B128Bound(s[..n]);
      Pow2Add(7, 7 * n);
      Pow2Small(7);
      DigitBound(B128(s[..n]), s[n], Pow2(7 * n), 128);
    }
  }

  // ---------- packing ----------

  /** Octets needed for septet positions 0 .. k-1. */
  function Octets(k: nat): nat { (7 * k + 7) / 8 }

  /** The octet the septet starts in: the bits below it stay. */
  function LowPart(was: byte, sh: nat, s: septet): byte
    requires sh < 8
  {
    var m := Sh(sh);
    LowPartFits(was, sh, s);
    was % m + (s * m) % 256
  }

  lemma LowPartFits(was: byte, sh: nat, s: septet)
    requires sh < 8
    ensures 0 <= was % Sh(sh) + (s * Sh(sh)) % 256 < 256
  {
    var m := Sh(sh);
    var n := Sh(8 - sh);
    assert m * n == 256;
    var q, r := s / n, s % n;
    assert s * m == q * 256 + r * m by {
      assert s == q * n + r;
      Spread3(q, n, r, m);
    }
    TopFits(r, n, m);
    DivModUnique(s * m, 256, q, r * m);
  }

  lemma Spread3(q: nat, n: nat, r: nat, m: nat)
    requires m * n == 256
    ensures (q * n + r) * m == q * 256 + r * m
  {
    calc {
      (q * n + r) * m;
      q * n * m + r * m;
      { assert q * n * m == q * (n * m); }
      q * 256 + r * m;
    }
  }

  lemma TopFits(r: nat, n: nat, m: nat)
    requires r < n && m * n == 256 && m > 0
    ensures r * m <= 256 - m
  {
    assert (n - r) * m >= m;
    assert (n - r) * m == n * m - r * m;
  }

  /** The bits that spill into the next octet. */
  function HighPart(sh: nat, s: septet): byte
    requires 1 < sh < 8
  {
    s / Sh(8 - sh)
  }

  /** Write one septet at septet position k, keeping the bits below it. */
  function PackOne(b: bytes, k: nat, s: septet): (r: bytes)
    requires Octets(k + 1) <= |b|
    ensures |r| == |b|
  {
    var o, sh := 7 * k / 8, 7 * k % 8;
    var b1 := b[o := LowPart(b[o], sh, s)];
    if sh > 1 then b1[o + 1 := HighPart(sh, s)] else b1
  }

  /** All septets from position off on. */
  function Packed(b: bytes, off: nat, s: seq<septet>): (r: bytes)
    requires Octets(off + |s|) <= |b|
    ensures |r| == |b|
  {
    if s == [] then b
    else PackOne(Packed(b, off, s[..|s| - 1]), off + |s| - 1, s[|s| - 1])
  }

  /** One septet, written into the octet it starts in and the one it spills into. */
  method PackAt(out: array<byte>, k: nat, s: septet)
    requires Octets(k + 1) <= out.Length
    modifies out
    ensures out[..] == PackOne(old(out[..]), k, s)
  {
    hide LowPart, HighPart;
    var bit := k * 7;
    var o, sh := bit / 8, bit % 8;
    out[o] := LowPart(out[o], sh, s);
    if sh > 1 {
      out[o + 1] := HighPart(sh, s);
    }
  }

  /** sms_gsm7_pack, in place: the bits below septet position off stay, the septets follow. */
  method Pack(septets: seq<byte>, off: nat, out: array<byte>) returns (r: Res<nat>)
    modifies out
    ensures Octets(off + |septets|) > out.Length ==> r == Fail(Overflow) && out[..] == old(out[..])
    ensures Octets(off + |septets|) <= out.Length ==>
              (r.Ok? <==> forall i :: 0 <= i < |septets| ==> septets[i] < 128)
    ensures r.Ok? ==> r.val == Octets(off + |septets|) && out[..] == Packed(old(out[..]), off, septets)
    ensures r.Fail? ==> r.err == Overflow || r.err == Inval
  {
    hide PackOne;
    var n := |septets|;
    var total := ((off + n) * 7 + 7) / 8;
    if total > out.Length {
      return Fail(Overflow);
    }
    ghost var was := out[..];
    var i := 0;
    while i < n
      invariant 0 <= i <= n
      invariant forall k :: 0 <= k < i ==> septets[k] < 128
      invariant out[..] == Packed(was, off, septets[..i])
    {
      if septets[i] > 0x7F {
        return Fail(Inval);
      }
      OctetsMono(off + i, off + i + 1, off + n);
      PackAt(out, off + i, septets[i]);
      assert septets[..i+1][..i] == septets[..i];
      i := i + 1;
    }
    assert septets[..n] == septets;
    return Ok(total);
  }

  // ---------- what packing means ----------

  lemma LESnoc(b: bytes, n: nat)
    requires n < |b|
    ensures LE(b[..n+1]) == LE(b[..n]) + b[n] * Pow2(8 * n)
  {
    hide Pow2;
    var x := b[..n+1];
    assert x[..|x| - 1] == b[..n];
  }

  /** 7k bits are o whole octets and sh more bits. */
  lemma BitSplit(k: nat)
    ensures var o, sh := 7 * k / 8, 7 * k % 8;
            && Pow2(7 * k) == Sh(sh) * Pow2(8 * o)
            && Octets(k) == (if sh == 0 then o else o + 1)
            && Octets(k + 1) == (if sh <= 1 then o + 1 else o + 2)
  {
    hide Pow2, Sh;
    var o, sh := 7 * k / 8, 7 * k % 8;
    assert 7 * k == sh + 8 * o;
    Pow2Add(sh, 8 * o);
    Pow2Small(sh);
  }

  /** The low 7k bits of a run. */
  lemma LowBits(b: bytes, k: nat)
    requires Octets(k + 1) <= |b|
    ensures var o, sh := 7 * k / 8, 7 * k % 8;
            o < |b| &&
            LE(b[..Octets(k)]) % Pow2(7 * k) == LE(b[..o]) + (b[o] % Sh(sh)) * Pow2(8 * o)
  {
    hide Pow2, LE;
    var o, sh := 7 * k / 8, 7 * k % 8;
    BitSplit(k);
    LEBound(b[..o]);
    var low, p, m := LE(b[..o]), Pow2(8 * o), Sh(sh);
    if sh == 0 {
      assert b[o] % m == 0;
      DivModUnique(low, p, 0, low);
    } else {
      LESnoc(b, o);
      var q, r := b[o] / m, b[o] % m;
      Distribute(q, m, r, p);
      DigitBound(low, r, p, m);
      DivModUnique(low + b[o] * p, m * p, q, low + r * p);
    }
  }

  lemma Distribute(q: nat, m: nat, r: nat, p: nat)
    ensures (q * m + r) * p == q * (m * p) + r * p
  {
    assert (q * m) * p == q * (m * p);
  }

  /** A shifted septet is the part that stays in its octet plus the part that spills over. */
  lemma ShiftedSeptet(sh: nat, s: septet)
    requires sh < 8
    ensures s * Sh(sh) == (s * Sh(sh)) % 256 + 256 * (if sh > 1 then HighPart(sh, s) else 0)
  {
  }

  /** Writing a septet at position k: the low 7k bits stay, the septet is added above them, and
      nothing lies above it. */
  lemma PackOneValue(b: bytes, k: nat, s: septet)
    requires Octets(k + 1) <= |b|
    ensures LE(PackOne(b, k, s)[..Octets(k + 1)]) == LE(b[..Octets(k)]) % Pow2(7 * k) + s * Pow2(7 * k)
    ensures PackOne(b, k, s)[Octets(k + 1)..] == b[Octets(k + 1)..]
  {
    hide Pow2, LE, Sh, LowPart, HighPart;
    var o, sh := 7 * k / 8, 7 * k % 8;
    BitSplit(k);
    LowBits(b, k);
    var r, p := PackOne(b, k, s), Pow2(8 * o);
    LESnoc(r, o);
    assert r[..o] == b[..o];
    LowPartIs(b[o], sh, s);
    ShiftedSeptet(sh, s);
    var a, c, h := b[o] % Sh(sh), (s * Sh(sh)) % 256, if sh > 1 then HighPart(sh, s) else 0;
    if sh > 1 {
      LESnoc(r, o + 1);
      Pow2Add(8, 8 * o);
      Pow2Small(8);
      ShEight();
      assert Pow2(8 * (o + 1)) == 256 * p;
    }
    SeptetSum(a, c, h, p, s, Sh(sh));
  }

  lemma ShEight()
    ensures Sh(8) == 256
  {
  }

  lemma LowPartIs(was: byte, sh: nat, s: septet)
    requires sh < 8
    ensures LowPart(was, sh, s) == was % Sh(sh) + (s * Sh(sh)) % 256
  {
  }

  lemma SeptetSum(a: nat, c: nat, h: nat, p: nat, s: nat, m: nat)
    requires s * m == c + 256 * h
    ensures (a + c) * p + h * (256 * p) == a * p + s * (m * p)
  {
    assert (a + c) * p == a * p + c * p;
    assert s * (m * p) == (s * m) * p == (c + 256 * h) * p == c * p + 256 * h * p;
    assert h * (256 * p) == 256 * h * p;
  }

  /** The low 7k bits of a longer run are those of its first Octets(k) octets. */
  lemma {:induction false} LowBitsLonger(b: bytes, k: nat, n: nat)
    requires Octets(k) <= n <= |b|
    ensures LE(b[..n]) % Pow2(7 * k) == LE(b[..Octets(k)]) % Pow2(7 * k)
    decreases n
  {
    hide Pow2, LE;
    if n > Octets(k) {
      var m := n - 1;
      LowBitsLonger(b, k, m);
      LESnoc(b, m);
      var d := 8 * m - 7 * k;
      Pow2Add(d, 7 * k);
      assert b[m] * Pow2(8 * m) == (b[m] * Pow2(d)) * Pow2(7 * k) by {
        assert b[m] * (Pow2(d) * Pow2(7 * k)) == (b[m] * Pow2(d)) * Pow2(7 * k);
      }
      AddMultiple(LE(b[..m]), b[m] * Pow2(d), Pow2(7 * k));
    }
  }

  /** Octets past the packed run are untouched. */
  lemma {:induction false} PackedBeyond(b: bytes, off: nat, s: seq<septet>)
    requires Octets(off + |s|) <= |b|
    ensures Packed(b, off, s)[Octets(off + |s|)..] == b[Octets(off + |s|)..]
    decreases |s|
  {
    hide PackOne, LE, Pow2, Octets;
    if s != [] {
      var n := |s| - 1;
      OctetsMono(off, off + n, off + |s|);
      var b', k := Packed(b, off, s[..n]), off + n;
      PackedBeyond(b, off, s[..n]);
      PackOneValue(b', k, s[n]);
      assert b'[Octets(k + 1)..] == b'[Octets(k)..][Octets(k + 1) - Octets(k)..];
      assert b[Octets(k + 1)..] == b[Octets(k)..][Octets(k + 1) - Octets(k)..];
    }
  }

  lemma DigitAdd(low: nat, hi: nat, x: nat, q: nat, p: nat)
    ensures low + hi * p + x * (q * p) == low + (hi + x * q) * p
  {
    assert x * (q * p) == (x * q) * p;
    assert (hi + x * q) * p == hi * p + (x * q) * p;
  }

  /** The packed run as a number: the old low bits, and above them the septets as base-128
      digits. Nothing is set beyond the last septet. */
  lemma {:induction false} PackedValue(b: bytes, off: nat, s: seq<septet>)
    requires |s| > 0 && Octets(off + |s|) <= |b|
    ensures LE(Packed(b, off, s)[..Octets(off + |s|)])
            == LE(b[..Octets(off + |s|)]) % Pow2(7 * off) + B128(s) * Pow2(7 * off)
    decreases |s|
  {
    hide Pow2, LE, PackOne, Octets;
    var n := |s| - 1;
    var s', k := s[..n], off + n;
    OctetsMono(off, k, k + 1);
    var b' := Packed(b, off, s');
    var p := Pow2(7 * off);
    var low := LE(b[..Octets(off)]) % p;
    LowBitsLonger(b, off, Octets(k + 1));
    PackOneValue(b', k, s[n]);
    Pow2Add(7 * n, 7 * off);
    if n == 0 {
      Pow2Small(0);
      B128One(s);
      ModBelow(LE(b[..Octets(off)]), p);
    } else {
      PackedValue(b, off, s');
      LowBitsLonger(b, off, Octets(k));
      B128Bound(s');
      DigitBound(low, B128(s'), p, Pow2(7 * n));
      ModBelow(low + B128(s') * p, Pow2(7 * k));
    }
    DigitAdd(low, B128(s'), s[n], Pow2(7 * n), p);
  }

  lemma OctetsMono(a: nat, b: nat, c: nat)
    requires a <= b <= c
    ensures Octets(a) <= Octets(b) <= Octets(c)
  {
  }

  lemma ModBelow(x: nat, m: nat)
    requires m > 0
    ensures x < m ==> x % m == x
    ensures (x % m) % m == x % m < m
  {
    if x < m { DivModUnique(x, m, 0, x); }
    DivModUnique(x % m, m, 0, x % m);
  }

  lemma B128One(s: seq<septet>)
    requires |s| == 1
    ensures B128(s[..0]) == 0
  {
  }

  // ---------- unpacking ----------

  /** The septet at position k, as the code reads it. */
  function Septet(b: bytes, k: nat): septet
    requires 7 * (k + 1) <= 8 * |b|
  {
    var o, sh := 7 * k / 8, 7 * k % 8;
    var v := b[o] / Sh(sh);
    (if sh > 1 then v + b[o + 1] * Sh(8 - sh) else v) % 128
  }

  /** sms_gsm7_unpack. */
  method Unpack(b: bytes, off: nat, count: nat, cap: nat) returns (r: Res<seq<septet>>)
    ensures count == 0 ==> r == Ok([])
    ensures count > 0 && count > cap ==> r == Fail(Overflow)
    ensures count > 0 && count <= cap && 7 * (off + count) > 8 * |b| ==> r == Fail(Length)
    ensures count > 0 && count <= cap && 7 * (off + count) <= 8 * |b| ==>
              r.Ok? && r.val == Unpacked(b, off, count)
  {
    hide Septet;
    if count == 0 { return Ok([]); }
    if count > cap { return Fail(Overflow); }
    if (off + count) * 7 > |b| * 8 { return Fail(Length); }
    var out: seq<septet> := [];
    for i := 0 to count
      invariant out == Unpacked(b, off, i)
    {
      out := out + [Septet(b, off + i)];
    }
    return Ok(out);
  }

  function Unpacked(b: bytes, off: nat, count: nat): (r: seq<septet>)
    requires 7 * (off + count) <= 8 * |b| || count == 0
    ensures |r| == count
    ensures forall i :: 0 <= i < count ==> r[i] == Septet(b, off + i)
  {
    if count == 0 then [] else Unpacked(b, off, count - 1) + [Septet(b, off + count - 1)]
  }

  /** Everything from bit 8n on, with the octet at n on top of what follows. */
  lemma {:induction false} LESplit(b: bytes, n: nat)
    requires n <= |b|
    ensures LE(b) == LE(b[..n]) + LE(b[n..]) * Pow2(8 * n)
    decreases |b|
  {
    hide Pow2;
    if n == |b| {
      assert b[..n] == b && b[n..] == [];
    } else {
      var m := |b| - 1;
      LESplit(b[..m], n);
      assert b[..m][..n] == b[..n] && b[..m][n..] == b[n..][..m - n];
      var t := b[n..];
      assert t[..|t| - 1] == b[n..][..m - n] && t[|t| - 1] == b[m];
      Pow2Add(8 * (m - n), 8 * n);
      DigitAdd(LE(b[..n]), LE(b[..m][n..]), b[m], Pow2(8 * (m - n)), Pow2(8 * n));
    }
  }

  lemma LEOne(x: byte)
    ensures LE([x]) == x
  {
    assert [x][..0] == [];
  }

  lemma LEFirst(b: bytes)
    requires |b| > 0
    ensures LE(b) == b[0] + 256 * LE(b[1..])
  {
    hide Pow2, LE, Sh;
    LESplit(b, 1);
    Pow2Small(8);
    ShEight();
    assert b[..1] == [b[0]];
    LEOne(b[0]);
    Commute(LE(b[1..]), 256);
  }

  lemma Commute(a: nat, b: nat)
    ensures a * b == b * a
  {
  }

  /** The septet read at position k is the k-th base-128 digit of the run. */
  lemma SeptetIsDigit(b: bytes, k: nat)
    requires 7 * (k + 1) <= 8 * |b|
    ensures Septet(b, k) == (LE(b) / Pow2(7 * k)) % 128
  {
    hide Pow2, LE, Sh;
    var o, sh := 7 * k / 8, 7 * k % 8;
    var t := b[o..];
    FromSeptet(b, k);
    LEFirst(t);
    if sh > 1 {
      LEFirst(t[1..]);
      assert t[1..][0] == b[o + 1] && t[1..][1..] == t[2..];
      TwoOctets(b[o], b[o + 1], LE(t[2..]), sh);
    } else {
      OneOctet(b[o], LE(t[1..]), sh);
    }
  }

  /** Dropping the bits below a septet: whole octets first. */
  lemma FromSeptet(b: bytes, k: nat)
    requires 7 * (k + 1) <= 8 * |b|
    ensures var o, sh := 7 * k / 8, 7 * k % 8; LE(b) / Pow2(7 * k) == LE(b[o..]) / Sh(sh)
  {
    hide Pow2, LE, Sh;
    var o, sh := 7 * k / 8, 7 * k % 8;
    BitSplit(k);
    LESplit(b, o);
    LEBound(b[..o]);
    var p, m := Pow2(8 * o), Sh(sh);
    ShPositive(sh);
    AddMultiple(LE(b[..o]), LE(b[o..]), p);
    DivModUnique(LE(b[..o]), p, 0, LE(b[..o]));
    assert LE(b) / p == LE(b[o..]);
    DivDiv(LE(b), p, m);
    assert Pow2(7 * k) == p * m;
  }

  lemma ShPositive(sh: nat)
    requires sh <= 8
    ensures Sh(sh) >= 1
  {
  }

  /** Shifting a two-part number right by sh bits. */
  lemma ShiftRight(a: nat, x: nat, sh: nat)
    requires sh < 8
    ensures (a + 256 * x) / Sh(sh) == a / Sh(sh) + x * Sh(8 - sh)
  {
    var m, w := Sh(sh), Sh(8 - sh);
    assert m * w == 256;
    assert 256 * x == (x * w) * m by { assert (x * w) * m == x * (m * w); }
    AddMultiple(a, x * w, m);
  }

  lemma OneOctet(a: byte, h: nat, sh: nat)
    requires sh <= 1
    ensures ((a + 256 * h) / Sh(sh)) % 128 == (a / Sh(sh)) % 128
  {
    hide Sh;
    ShiftRight(a, h, sh);
    WideShift(sh);
    var c := Sh(8 - sh) / 128;
    assert h * Sh(8 - sh) == (h * c) * 128 by { assert h * (c * 128) == (h * c) * 128; }
    AddMultiple(a / Sh(sh), h * c, 128);
  }

  lemma WideShift(sh: nat)
    requires sh <= 1
    ensures Sh(8 - sh) == (Sh(8 - sh) / 128) * 128
  {
  }

  lemma Spread(c: nat, h: nat, w: nat)
    ensures (c + 256 * h) * w == c * w + (2 * h * w) * 128
  {
    assert (c + 256 * h) * w == c * w + (256 * h) * w;
    assert (256 * h) * w == (2 * h * w) * 128;
  }

  lemma TwoOctets(a: byte, c: byte, h: nat, sh: nat)
    requires 1 < sh < 8
    ensures ((a + 256 * (c + 256 * h)) / Sh(sh)) % 128 == (a / Sh(sh) + c * Sh(8 - sh)) % 128
  {
    hide Sh;
    ShiftRight(a, c + 256 * h, sh);
    SpreadMod(a / Sh(sh), c, h, Sh(8 - sh));
  }

  lemma SpreadMod(y: nat, c: nat, h: nat, w: nat)
    ensures (y + (c + 256 * h) * w) % 128 == (y + c * w) % 128
  {
    Spread(c, h, w);
    AddMultiple(y + c * w, 2 * h * w, 128);
  }

  /** Digits of a base-128 number. */
  lemma {:induction false} B128Digit(s: seq<septet>, i: nat)
    requires i < |s|
    ensures (B128(s) / Pow2(7 * i)) % 128 == s[i]
    decreases |s|
  {
    hide Pow2;
    var n := |s| - 1;
    B128Bound(s[..n]);
    if i == n {
      TopDigit(B128(s[..n]), s[n], Pow2(7 * n));
    } else {
      B128Digit(s[..n], i);
      DeepDigit(n, i);
      InnerDigit(B128(s[..n]), s[n], Pow2(7 * (n - i - 1)), Pow2(7 * i));
    }
  }

  lemma TopDigit(x: nat, d: nat, q: nat)
    requires x < q && d < 128
    ensures ((x + d * q) / q) % 128 == d
  {
    AddMultiple(x, d, q);
    DivModUnique(x, q, 0, x);
    DivModUnique(d, 128, 0, d);
  }

  lemma InnerDigit(x: nat, d: nat, e: nat, q: nat)
    requires q > 0
    ensures ((x + d * ((128 * e) * q)) / q) % 128 == (x / q) % 128
  {
    ThreeFactors(d, e, q);
    AddMultiple(x, (d * e) * 128, q);
    AddMultiple(x / q, d * e, 128);
  }

  lemma DeepDigit(n: nat, i: nat)
    requires i < n
    ensures Pow2(7 * n) == (128 * Pow2(7 * (n - i - 1))) * Pow2(7 * i)
  {
    hide Pow2, Sh;
    var e := 7 * (n - i - 1);
    Pow2Add(7, e);
    Pow2Add(7 + e, 7 * i);
    Pow2Small(7);
    ShSeven();
  }

  lemma ShSeven()
    ensures Sh(7) == 128
  {
  }

  lemma ThreeFactors(x: nat, e: nat, q: nat)
    ensures x * ((128 * e) * q) == ((x * e) * 128) * q
  {
    assert x * ((128 * e) * q) == (x * (128 * e)) * q;
  }

  /** Unpacking with the same offset and count undoes packing. */
  lemma UnpackPacked(b: bytes, off: nat, s: seq<septet>)
    requires Octets(off + |s|) <= |b|
    ensures Unpacked(Packed(b, off, s)[..Octets(off + |s|)], off, |s|) == s
  {
    hide Pow2, LE, Septet, Packed;
    if |s| > 0 {
      var t := Packed(b, off, s)[..Octets(off + |s|)];
      var p := Pow2(7 * off);
      PackedValue(b, off, s);
      var low := LE(b[..Octets(off + |s|)]) % p;
      forall i | 0 <= i < |s| ensures Septet(t, off + i) == s[i] {
        SeptetIsDigit(t, off + i);
        Pow2Add(7 * off, 7 * i);
        DivDiv(LE(t), p, Pow2(7 * i));
        AddMultiple(low, B128(s), p);
        DivModUnique(low, p, 0, low);
        B128Digit(s, i);
      }
    }
  }

  /** A header whose octets end at or before septet position off is left as it was. */
  lemma HeaderUntouched(b: bytes, off: nat, s: seq<septet>, h: nat)
    requires Octets(off + |s|) <= |b| && 8 * h <= 7 * off && h <= |b|
    ensures Packed(b, off, s)[..h] == b[..h]
    decreases |s|
  {
    hide LowPart, HighPart;
    if s != [] {
      var n := |s| - 1;
      HeaderUntouched(b, off, s[..n], h);
      var b', k := Packed(b, off, s[..n]), off + n;
      assert h <= 7 * k / 8;
      assert PackOne(b', k, s[n])[..h] == b'[..h];
    }
  }

  /** The septet position the text starts at, after a header of h octets. */
  function SeptetOff(h: nat): nat { (h * 8 + 6) / 7 }

  /** It is the first septet boundary not inside the header. */
  lemma SeptetOffTight(h: nat)
    ensures 8 * h <= 7 * SeptetOff(h) < 8 * h + 7
  {
  }
}
